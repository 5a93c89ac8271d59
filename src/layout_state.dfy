// The state the layout code reads and writes on atoms and rings.  The
// source keeps it on the objects themselves: `atom.flags[ISPLACED]`,
// `atom.flags[VISITED]`, `atom.flags[ISINRING]`, `atom.flags[ISALIPHATIC]`
// and `atom.coord`, `ring.flags[ISPLACED]` and the separate `ring.isPlaced`
// property.  Here the molecule's atoms and rings are numbered and each of
// those becomes one sequence, indexed by atom or by ring, on one object
// that the layout methods update in place.

module LayoutState {
  import opened Vec2
  import opened RingFinder

  class Layout {
    /** ISPLACED, per atom. */
    var placed: seq<bool>
    /** VISITED, per atom. */
    var visited: seq<bool>
    /** ISINRING, per atom. */
    var inRing: seq<bool>
    /** ISALIPHATIC, per atom. */
    var aliphatic: seq<bool>
    /** `atom.coord`, per atom. */
    var coords: seq<Vec>
    /** `ring.flags[ISPLACED]`, per ring. */
    var ringPlaced: seq<bool>
    /** `ring.isPlaced`, per ring (unset reads as false). */
    var ringIsPlaced: seq<bool>

    /** n atoms and m rings. */
    predicate Valid(n: nat, m: nat)
      reads this
    {
      |placed| == n && |visited| == n && |inRing| == n && |aliphatic| == n && |coords| == n &&
      |ringPlaced| == m && |ringIsPlaced| == m
    }

    /** Atoms with the given coordinates, every flag unset. */
    constructor (coords0: seq<Vec>, m: nat)
      ensures Valid(|coords0|, m) && coords == coords0
      ensures forall a :: 0 <= a < |coords0| ==> !placed[a] && !visited[a] && !inRing[a] && !aliphatic[a]
      ensures forall r :: 0 <= r < m ==> !ringPlaced[r] && !ringIsPlaced[r]
    {
      var n := |coords0|;
      placed := seq(n, _ => false);
      visited := seq(n, _ => false);
      inRing := seq(n, _ => false);
      aliphatic := seq(n, _ => false);
      coords := coords0;
      ringPlaced := seq(m, _ => false);
      ringIsPlaced := seq(m, _ => false);
    }
  }

  /** The atom lists of a ring table, the form the ring partitioner reads. */
  function AtomLists(rings: seq<RingRecord>): (r: seq<seq<nat>>)
    ensures |r| == |rings| && forall i :: 0 <= i < |rings| ==> r[i] == rings[i].atoms
  {
    seq(|rings|, i requires 0 <= i < |rings| => rings[i].atoms)
  }

  /** Every atom and bond a ring names exists. */
  predicate RingsIn(rings: seq<RingRecord>, n: nat, nb: nat)
  {
    forall r :: 0 <= r < |rings| ==>
      (forall k :: 0 <= k < |rings[r].atoms| ==> rings[r].atoms[k] < n) &&
      (forall k :: 0 <= k < |rings[r].bonds| ==> rings[r].bonds[k] < nb)
  }
}
