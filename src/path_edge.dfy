// src/ring/path_edge.js: a path of atoms used by the Hanser ring finder.
// Atoms are atom indices.  `id` stands for the identity of the JavaScript
// object: path_graph.js finds and removes edges with `===`, so two edges
// holding the same atoms are still different edges.

module RingPathEdge {
  import opened Wrappers
  import opened Seqs

  datatype PathEdge = PathEdge(id: nat, atoms: seq<nat>)

  function Last(s: seq<nat>): nat
    requires |s| > 0
  {
    s[|s| - 1]
  }

  /** `isCycle` (path_edge.js:31-34): more than two atoms and the path
      closes on itself. */
  predicate IsCycle(e: PathEdge)
  {
    |e.atoms| > 2 && e.atoms[0] == Last(e.atoms)
  }

  /** Is x an end atom of the path? */
  predicate IsEnd(s: seq<nat>, x: nat)
    requires |s| > 0
  {
    x == s[0] || x == Last(s)
  }

  /** `getIntersection` (path_edge.js:95-105): this path's last atom if it
      is an end of the other path, else its first atom if that is, else
      the "no intersection" error. */
  function GetIntersection(mine: seq<nat>, others: seq<nat>): (r: Result<nat>)
    requires |mine| > 0 && |others| > 0
    ensures r.Ok? <==> IsEnd(others, Last(mine)) || IsEnd(others, mine[0])
    ensures r.Ok? ==> IsEnd(mine, r.value) && IsEnd(others, r.value)
    ensures r.Ok? && r.value != Last(mine) ==> !IsEnd(others, Last(mine))
    ensures r.Err? ==> r.error == "Couldn't splice - no intersection"
  {
    if Last(mine) == others[0] || Last(mine) == Last(others) then Ok(Last(mine))
    else if mine[0] == others[0] || mine[0] == Last(others) then Ok(mine[0])
    else Err("Couldn't splice - no intersection")
  }

  /** The interior atoms (all but the two ends) are pairwise different. */
  predicate InteriorDistinct(atoms: seq<nat>)
  {
    forall i, j :: 1 <= i < |atoms| - 1 && 1 <= j < |atoms| - 1 && i != j ==> atoms[i] != atoms[j]
  }

  /** `isRealPath` (path_edge.js:77-89): compares interior positions only,
      so a closed path whose two ends coincide is accepted. */
  method IsRealPath(atoms: seq<nat>) returns (r: bool)
    ensures r <==> InteriorDistinct(atoms)
  {
    var il := |atoms| - 1;
    var i := 1;
    while i < il
      invariant 1 <= i && (il >= 1 ==> i <= il)
      invariant forall p, q :: 1 <= p < i && 1 <= q < il && p != q ==> atoms[p] != atoms[q]
    {
      var j := 1;
      while j < il
        invariant 1 <= j <= il
        invariant forall q :: 1 <= q < j && q != i ==> atoms[i] != atoms[q]
      {
        if i != j && atoms[i] == atoms[j] {
          return false;
        }
        j := j + 1;
      }
      i := i + 1;
    }
    return true;
  }

  /** The atom list `splice` joins: this path, reversed when the shared
      atom x is its first atom, followed by the other path without x,
      read away from x. */
  function Joined(mine: seq<nat>, others: seq<nat>, x: nat): seq<nat>
    requires |others| > 0
  {
    (if |mine| > 0 && mine[0] == x then Reverse(mine) else mine)
    + (if others[0] == x then others[1..] else Reverse(others[..|others| - 1]))
  }

  /** What `this.splice(other)` (path_edge.js:40-71) yields: the "no
      intersection" error when the paths share no end atom, null (None)
      when the joined list is not a real path, else a new edge with
      identity `newId` holding it. */
  function Spliced(me: PathEdge, other: PathEdge, newId: nat): Result<Option<PathEdge>>
    requires |me.atoms| > 0 && |other.atoms| > 0
  {
    match GetIntersection(me.atoms, other.atoms)
    case Err(m) => Err(m)
    case Ok(x) =>
      var joined := Joined(me.atoms, other.atoms, x);
      if InteriorDistinct(joined) then Ok(Some(PathEdge(newId, joined))) else Ok(None)
  }

  /** `splice` builds the joined list in a fresh array with push loops and
      an in-place reverse of the copy, so neither input path changes. */
  method Splice(me: PathEdge, other: PathEdge, newId: nat) returns (r: Result<Option<PathEdge>>)
    requires |me.atoms| > 0 && |other.atoms| > 0
    ensures r == Spliced(me, other, newId)
  {
    var found := GetIntersection(me.atoms, other.atoms);
    if found.Err? {
      return Err(found.error);
    }
    var intersection := found.value;
    var newAtoms: seq<nat> := [];
    var i := 0;
    while i < |me.atoms|
      invariant 0 <= i <= |me.atoms|
      invariant newAtoms == me.atoms[..i]
    {
      newAtoms := newAtoms + [me.atoms[i]];
      i := i + 1;
    }
    assert newAtoms == me.atoms;
    if me.atoms[0] == intersection {
      newAtoms := Reverse(newAtoms);
    }
    ghost var head := newAtoms;
    var n := |other.atoms|;
    if other.atoms[0] == intersection {
      i := 1;
      while i < n
        invariant 1 <= i <= n
        invariant newAtoms == head + other.atoms[1..i]
      {
        newAtoms := newAtoms + [other.atoms[i]];
        i := i + 1;
      }
    } else {
      var k := n - 2;
      while k >= 0
        invariant -1 <= k <= n - 2
        invariant newAtoms == head + Reverse(other.atoms[k + 1..n - 1])
      {
        assert other.atoms[k..n - 1][1..] == other.atoms[k + 1..n - 1];
        newAtoms := newAtoms + [other.atoms[k]];
        k := k - 1;
      }
      assert other.atoms[0..n - 1] == other.atoms[..n - 1];
    }
    assert newAtoms == Joined(me.atoms, other.atoms, intersection);
    var ok := IsRealPath(newAtoms);
    if !ok {
      return Ok(None);
    }
    return Ok(Some(PathEdge(newId, newAtoms)));
  }

  /** A spliced path holds only atoms of the two paths it joins. */
  lemma JoinedAtoms(mine: seq<nat>, others: seq<nat>, x: nat)
    requires |others| > 0
    ensures forall y :: y in Joined(mine, others, x) ==> y in mine || y in others
  {
    ReverseMembers(mine);
    ReverseMembers(others[..|others| - 1]);
  }

  /** A spliced path has |this| + |other| - 1 atoms; it runs from this
      path's far end to the shared atom x, which sits at position
      |this| - 1, and on to the other path's far end. */
  lemma JoinedShape(mine: seq<nat>, others: seq<nat>)
    requires |mine| > 0 && |others| > 0
    requires GetIntersection(mine, others).Ok?
    ensures var x := GetIntersection(mine, others).value;
      var j := Joined(mine, others, x);
      |j| == |mine| + |others| - 1 &&
      j[|mine| - 1] == x &&
      j[0] == (if mine[0] == x then Last(mine) else mine[0]) &&
      Last(j) == (if others[0] == x then Last(others) else others[0])
  {
    var x := GetIntersection(mine, others).value;
    var left := if mine[0] == x then Reverse(mine) else mine;
    var m := others[..|others| - 1];
    var right := if others[0] == x then others[1..] else Reverse(m);
    assert Joined(mine, others, x) == left + right;
    if mine[0] == x {
      ReverseAt(mine, 0);
      ReverseAt(mine, |mine| - 1);
    }
    assert left[|mine| - 1] == x;
    if |others| > 1 && others[0] != x {
      ReverseAt(m, |m| - 1);
    }
  }
}
