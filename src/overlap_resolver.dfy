// src/layout/overlap_resolver.js: the finishing pass of the layout.  Pairs
// of atoms closer than a cutoff are scored and collected, and a bounded
// loop nudges one atom of a randomly chosen pair along the line to its
// partner and scores again.
//
// The random draws become nondeterministic choices; `Math.sqrt` and
// `normalize()` are parameters.  The cutoff is `BOND_LENGTH / 5`, and
// coordinate_generator.js never defines `BOND_LENGTH`: the cutoff is then
// NaN, which no distance is below.  An Option stands for that read (None
// is undefined).

module OverlapResolver {
  import opened Wrappers
  import opened Seqs
  import opened Vec2
  import opened LayoutState

  /** One entry of `overlappingAtoms`: the pair [atom1, atom2]. */
  datatype Pair = Pair(first: nat, second: nat)

  /** `goog.math.Coordinate.distance(p, q)`. */
  function Distance(sqrt: real -> real, p: Vec, q: Vec): real
  {
    sqrt(SqDist(p, q))
  }

  /** Are atoms f and g closer than the cutoff?  A NaN cutoff (None)
      compares false. */
  predicate Overlaps(coords: seq<Vec>, cutoff: Option<real>, sqrt: real -> real, f: nat, g: nat)
    requires f < |coords| && g < |coords|
  {
    cutoff.Some? && Distance(sqrt, coords[f], coords[g]) < cutoff.value
  }

  /** The pairs (f, g') with g <= g' that overlap, in the order of g'. */
  function PairsFrom(coords: seq<Vec>, cutoff: Option<real>, sqrt: real -> real, f: nat, g: nat): seq<Pair>
    requires f < |coords|
    decreases |coords| - g
  {
    if g >= |coords| then []
    else
      (if Overlaps(coords, cutoff, sqrt, f, g) then [Pair(f, g)] else []) + PairsFrom(coords, cutoff, sqrt, f, g + 1)
  }

  /** The overlapping pairs (f', g') with f <= f' < g', in the order the
      two loops of `getOverlapScore` visit them. */
  function OverlapPairs(coords: seq<Vec>, cutoff: Option<real>, sqrt: real -> real, f: nat): seq<Pair>
    decreases |coords| - f
  {
    if f >= |coords| then []
    else PairsFrom(coords, cutoff, sqrt, f, f + 1) + OverlapPairs(coords, cutoff, sqrt, f + 1)
  }

  /** The score of a number of overlapping pairs: the cutoff once per pair
      (0 when the cutoff is NaN, as no pair is then found). */
  function Score(cutoff: Option<real>, pairs: nat): real
  {
    if cutoff.Some? then cutoff.value * pairs as real else 0.0
  }

  /** Scores add up. */
  lemma ScoreAdds(cutoff: Option<real>, a: nat, b: nat)
    ensures Score(cutoff, a) + Score(cutoff, b) == Score(cutoff, a + b)
  {
  }

  /** The pairs of PairsFrom are exactly the overlapping (f, g') with
      g <= g'. */
  lemma {:induction false} PairsFromExact(coords: seq<Vec>, cutoff: Option<real>, sqrt: real -> real,
                                          f: nat, g: nat, p: Pair)
    requires f < |coords|
    ensures p in PairsFrom(coords, cutoff, sqrt, f, g) <==>
      p.first == f && g <= p.second < |coords| && Overlaps(coords, cutoff, sqrt, f, p.second)
    decreases |coords| - g
  {
    if g < |coords| {
      PairsFromExact(coords, cutoff, sqrt, f, g + 1, p);
      var here := if Overlaps(coords, cutoff, sqrt, f, g) then [Pair(f, g)] else [];
      assert PairsFrom(coords, cutoff, sqrt, f, g) == here + PairsFrom(coords, cutoff, sqrt, f, g + 1);
      assert p in here <==> p == Pair(f, g) && Overlaps(coords, cutoff, sqrt, f, g);
    }
  }

  /** PairsFrom lists each pair once. */
  lemma {:induction false} PairsFromDistinct(coords: seq<Vec>, cutoff: Option<real>, sqrt: real -> real,
                                             f: nat, g: nat)
    requires f < |coords|
    ensures Distinct(PairsFrom(coords, cutoff, sqrt, f, g))
    decreases |coords| - g
  {
    if g < |coords| {
      PairsFromDistinct(coords, cutoff, sqrt, f, g + 1);
      PairsFromExact(coords, cutoff, sqrt, f, g + 1, Pair(f, g));
    }
  }

  /** `getOverlapScore` finds exactly the overlapping pairs f < g, each
      once. */
  lemma {:induction false} OverlapPairsExact(coords: seq<Vec>, cutoff: Option<real>, sqrt: real -> real,
                                             f: nat, p: Pair)
    ensures p in OverlapPairs(coords, cutoff, sqrt, f) <==>
      f <= p.first < p.second < |coords| && Overlaps(coords, cutoff, sqrt, p.first, p.second)
    decreases |coords| - f
  {
    if f < |coords| {
      PairsFromExact(coords, cutoff, sqrt, f, f + 1, p);
      OverlapPairsExact(coords, cutoff, sqrt, f + 1, p);
    }
  }

  /** No pair is found twice. */
  lemma {:induction false} OverlapPairsDistinct(coords: seq<Vec>, cutoff: Option<real>, sqrt: real -> real, f: nat)
    ensures Distinct(OverlapPairs(coords, cutoff, sqrt, f))
    decreases |coords| - f
  {
    if f < |coords| {
      var head := PairsFrom(coords, cutoff, sqrt, f, f + 1);
      var tail := OverlapPairs(coords, cutoff, sqrt, f + 1);
      PairsFromDistinct(coords, cutoff, sqrt, f, f + 1);
      OverlapPairsDistinct(coords, cutoff, sqrt, f + 1);
      forall p | p in head
        ensures p !in tail
      {
        PairsFromExact(coords, cutoff, sqrt, f, f + 1, p);
        OverlapPairsExact(coords, cutoff, sqrt, f + 1, p);
      }
      DistinctConcat(head, tail);
    }
  }

  /** Two lists without repeats and without common elements make a list
      without repeats. */
  lemma DistinctConcat(a: seq<Pair>, b: seq<Pair>)
    requires Distinct(a) && Distinct(b) && forall p :: p in a ==> p !in b
    ensures Distinct(a + b)
  {
    forall i, j | 0 <= i < j < |a + b|
      ensures (a + b)[i] != (a + b)[j]
    {
      if j < |a| {
      } else if i >= |a| {
        assert (a + b)[i] == b[i - |a|] && (a + b)[j] == b[j - |a|];
      } else {
        assert (a + b)[i] in a && (a + b)[j] in b;
      }
    }
  }

  /** A NaN cutoff finds no pair: with `BOND_LENGTH` undefined the score
      is always 0. */
  lemma {:induction false} NaNCutoffFindsNothing(coords: seq<Vec>, sqrt: real -> real, f: nat)
    ensures OverlapPairs(coords, None, sqrt, f) == []
    decreases |coords| - f
  {
    if f < |coords| {
      NaNPairsFromEmpty(coords, sqrt, f, f + 1);
      NaNCutoffFindsNothing(coords, sqrt, f + 1);
    }
  }

  lemma {:induction false} NaNPairsFromEmpty(coords: seq<Vec>, sqrt: real -> real, f: nat, g: nat)
    requires f < |coords|
    ensures PairsFrom(coords, None, sqrt, f, g) == []
    decreases |coords| - g
  {
    if g < |coords| {
      NaNPairsFromEmpty(coords, sqrt, f, g + 1);
    }
  }

  /** The inner loop of `getOverlapScore` for atom f (overlap_resolver.js:50-61). */
  method ScoreRow(coords: seq<Vec>, cutoff: Option<real>, sqrt: real -> real, f: nat,
                  score0: real, overlapping0: seq<Pair>)
    returns (score: real, overlapping: seq<Pair>)
    requires f < |coords|
    ensures overlapping == overlapping0 + PairsFrom(coords, cutoff, sqrt, f, f + 1)
    ensures score == score0 + Score(cutoff, |overlapping| - |overlapping0|)
  {
    score, overlapping := score0, overlapping0;
    var g := f + 1;
    while g < |coords|
      invariant f + 1 <= g <= |coords|
      invariant overlapping + PairsFrom(coords, cutoff, sqrt, f, g) ==
        overlapping0 + PairsFrom(coords, cutoff, sqrt, f, f + 1)
      invariant |overlapping| >= |overlapping0|
      invariant score == score0 + Score(cutoff, |overlapping| - |overlapping0|)
      decreases |coords| - g
    {
      ghost var before := overlapping;
      ghost var rest := PairsFrom(coords, cutoff, sqrt, f, g + 1);
      ghost var here := if Overlaps(coords, cutoff, sqrt, f, g) then [Pair(f, g)] else [];
      assert PairsFrom(coords, cutoff, sqrt, f, g) == here + rest;
      score, overlapping := ScorePair(coords, cutoff, sqrt, f, g, score, overlapping);
      assert overlapping + rest == before + (here + rest);
      ScoreAdds(cutoff, |before| - |overlapping0|, |here|);
      g := g + 1;
    }
  }

  /** The body of the inner loop (overlap_resolver.js:52-60): a pair
      closer than the cutoff adds the cutoff to the score and is appended. */
  method ScorePair(coords: seq<Vec>, cutoff: Option<real>, sqrt: real -> real, f: nat, g: nat,
                   score0: real, overlapping0: seq<Pair>)
    returns (score: real, overlapping: seq<Pair>)
    requires f < |coords| && g < |coords|
    ensures overlapping == overlapping0 + if Overlaps(coords, cutoff, sqrt, f, g) then [Pair(f, g)] else []
    ensures score == score0 + Score(cutoff, |overlapping| - |overlapping0|)
  {
    score, overlapping := score0, overlapping0;
    if cutoff.Some? && Distance(sqrt, coords[f], coords[g]) < cutoff.value {
      score := score + cutoff.value;
      overlapping := overlapping + [Pair(f, g)];
    }
  }

  /** `getOverlapScore(molecule, overlappingAtoms)`
      (overlap_resolver.js:40-64): every overlapping pair f < g is
      appended to the list, in the order of the two loops, and the score
      is the cutoff times the number of pairs this call appended.  The
      list is never cleared. */
  method GetOverlapScore(st: Layout, cutoff: Option<real>, sqrt: real -> real, overlapping0: seq<Pair>)
    returns (score: real, overlapping: seq<Pair>)
    ensures overlapping == overlapping0 + OverlapPairs(st.coords, cutoff, sqrt, 0)
    ensures score == Score(cutoff, |overlapping| - |overlapping0|)
  {
    score, overlapping := 0.0, overlapping0;
    var coords := st.coords;
    for f := 0 to |coords|
      invariant overlapping + OverlapPairs(coords, cutoff, sqrt, f) ==
        overlapping0 + OverlapPairs(coords, cutoff, sqrt, 0)
      invariant |overlapping| >= |overlapping0|
      invariant score == Score(cutoff, |overlapping| - |overlapping0|)
    {
      ghost var before := overlapping;
      ghost var row := PairsFrom(coords, cutoff, sqrt, f, f + 1);
      ghost var rest := OverlapPairs(coords, cutoff, sqrt, f + 1);
      assert OverlapPairs(coords, cutoff, sqrt, f) == row + rest;
      score, overlapping := ScoreRow(coords, cutoff, sqrt, f, score, overlapping);
      assert overlapping + rest == before + (row + rest);
      ScoreAdds(cutoff, |before| - |overlapping0|, |row|);
    }
  }

  /** The unit vector `normalize()` leaves for the difference of two
      coordinates, with the NaN components of a zero difference replaced
      by 0.01 (overlap_resolver.js:90-96). */
  function Direction(normalized: Vec -> Vec, d: Vec): Vec
  {
    if d == Zero then Vec(0.01, 0.01) else normalized(d)
  }

  /** One displacement (overlap_resolver.js:87-108): atom `second` of the
      pair moves by a third of the bond length toward atom `first` when
      `moveSecond`, otherwise `first` moves by as much toward `second`;
      nothing else moves. */
  method DisplacePair(st: Layout, pair: Pair, bondLength: real, normalized: Vec -> Vec, moveSecond: bool)
    requires pair.first < |st.coords| && pair.second < |st.coords|
    modifies st`coords
    ensures var unit := Direction(normalized, Minus(old(st.coords[pair.second]), old(st.coords[pair.first])));
      if moveSecond then
        st.coords == old(st.coords)[pair.second := Minus(old(st.coords[pair.second]), Scaled(unit, bondLength / 3.0))]
      else
        st.coords == old(st.coords)[pair.first := Plus(old(st.coords[pair.first]), Scaled(unit, bondLength / 3.0))]
  {
    var p1 := st.coords[pair.first];
    var v2 := Direction(normalized, Minus(st.coords[pair.second], p1));
    v2 := Scaled(v2, -1.0 * bondLength / 3.0);
    if moveSecond {
      st.coords := st.coords[pair.second := Plus(st.coords[pair.second], v2)];
    } else {
      st.coords := st.coords[pair.first := Minus(p1, v2)];
    }
  }

  /** Do all pairs name atoms of the molecule? */
  predicate PairsIn(pairs: seq<Pair>, n: nat)
  {
    forall k :: 0 <= k < |pairs| ==> pairs[k].first < n && pairs[k].second < n
  }

  /** `displace(molecule, overlappingAtoms)` (overlap_resolver.js:75-118).
      With no pair the clamped index is -1, the pair is undefined, and the
      loop ends at once with an undefined score (None).  Otherwise each
      round picks any listed pair and moves one of its atoms, then scores
      again, appending to the same list; the loop stops once the score is
      not positive or after maxSteps + 1 = 26 rounds. */
  method Displace(st: Layout, cutoff: Option<real>, bondLength: real, sqrt: real -> real,
                  normalized: Vec -> Vec, overlapping0: seq<Pair>)
    returns (score: Option<real>, overlapping: seq<Pair>, steps: nat)
    requires PairsIn(overlapping0, |st.coords|)
    modifies st`coords
    ensures |st.coords| == old(|st.coords|)
    ensures overlapping0 == [] ==> score == None && steps == 0 && st.coords == old(st.coords)
    ensures overlapping0 != [] ==> score.Some? && 1 <= steps <= 26 && (score.value > 0.0 ==> steps == 26)
    ensures |overlapping| >= |overlapping0| && overlapping[..|overlapping0|] == overlapping0
  {
    overlapping := overlapping0;
    steps := 0;
    if overlapping == [] {
      return None, overlapping, steps;
    }
    var maxSteps := 25;
    var s := 0.0;
    while steps == 0 || (s > 0.0 && !(steps > maxSteps))
      invariant |st.coords| == old(|st.coords|)
      invariant |overlapping| >= |overlapping0| > 0 && overlapping[..|overlapping0|] == overlapping0
      invariant PairsIn(overlapping, |st.coords|)
      invariant steps <= maxSteps + 1
      decreases maxSteps + 1 - steps
    {
      var p :| 0 <= p < |overlapping|;
      var moveSecond: bool := *;
      DisplacePair(st, overlapping[p], bondLength, normalized, moveSecond);
      ghost var before := overlapping;
      s, overlapping := GetOverlapScore(st, cutoff, sqrt, overlapping);
      assert overlapping[..|before|] == before;
      ghost var found := OverlapPairs(st.coords, cutoff, sqrt, 0);
      forall k | |before| <= k < |overlapping|
        ensures overlapping[k].first < |st.coords| && overlapping[k].second < |st.coords|
      {
        assert overlapping[k] == found[k - |before|];
        OverlapPairsExact(st.coords, cutoff, sqrt, 0, overlapping[k]);
      }
      steps := steps + 1;
    }
    score := Some(s);
  }

  /** `resolveOverlap(molecule, sssr)` (overlap_resolver.js:26-33):
      `displace` runs only when the first score is positive.  With
      `BOND_LENGTH` undefined (None) the score is 0 and no atom moves. */
  method ResolveOverlap(st: Layout, bondLength: Option<real>, sqrt: real -> real, normalized: Vec -> Vec)
    returns (score: Option<real>)
    modifies st`coords
    ensures |st.coords| == old(|st.coords|)
    ensures bondLength.None? ==> score == Some(0.0) && st.coords == old(st.coords)
    ensures OverlapPairs(old(st.coords), if bondLength.Some? then Some(bondLength.value / 5.0) else None, sqrt, 0) == [] ==>
      score == Some(0.0) && st.coords == old(st.coords)
  {
    var cutoff := if bondLength.Some? then Some(bondLength.value / 5.0) else None;
    var s, overlapping := GetOverlapScore(st, cutoff, sqrt, []);
    if bondLength.None? {
      NaNCutoffFindsNothing(st.coords, sqrt, 0);
    }
    if s > 0.0 {
      forall k | 0 <= k < |overlapping|
        ensures overlapping[k].first < |st.coords| && overlapping[k].second < |st.coords|
      {
        OverlapPairsExact(st.coords, cutoff, sqrt, 0, overlapping[k]);
      }
      var appended, steps;
      score, appended, steps := Displace(st, cutoff, bondLength.value, sqrt, normalized, overlapping);
    } else {
      score := Some(s);
    }
  }
}
