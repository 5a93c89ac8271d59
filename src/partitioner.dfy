// src/ring/partitioner.js groups rings into connected lists.  The file
// defines `getPartitionedRings` and `directConnectedRings` twice; the
// later definitions (lines 103-146) replace the earlier ones and are the
// ones modelled here.  A ring is named by its position in the input list
// (each ring the finder reports is a distinct object) and an atom by its
// index in the molecule, so `===` on either is equality of numbers.

module RingPartitioner {
  import opened Wrappers
  import opened Seqs

  /** Does ring x have an atom of ring y? */
  predicate SharesAtom(x: seq<nat>, y: seq<nat>)
  {
    exists a :: a in x && a in y
  }

  /** `directConnectedRings(ring, search)` (partitioner.js:131-146): the
      rings of `search`, in order, that are not the subject and have some
      atom of it. */
  function DirectConnected(rings: seq<seq<nat>>, ring: nat, search: seq<nat>): seq<nat>
    requires ring < |rings| && forall k :: 0 <= k < |search| ==> search[k] < |rings|
  {
    if search == [] then []
    else
      var r := search[0];
      (if r != ring && SharesAtom(rings[r], rings[ring]) then [r] else [])
        + DirectConnected(rings, ring, search[1..])
  }

  /** A ring of the result is exactly a ring of `search` other than the
      subject that shares an atom with it, and the result keeps the
      order of `search`. */
  lemma {:induction false} DirectConnectedMembers(rings: seq<seq<nat>>, ring: nat, search: seq<nat>)
    requires ring < |rings| && forall k :: 0 <= k < |search| ==> search[k] < |rings|
    ensures forall x :: x in DirectConnected(rings, ring, search) <==>
      x in search && x != ring && SharesAtom(rings[x], rings[ring])
    ensures Subsequence(DirectConnected(rings, ring, search), search)
  {
    if search != [] {
      DirectConnectedMembers(rings, ring, search[1..]);
      assert forall x :: x in search <==> x == search[0] || x in search[1..];
      var rest := DirectConnected(rings, ring, search[1..]);
      if search[0] != ring && SharesAtom(rings[search[0]], rings[ring]) {
        assert DirectConnected(rings, ring, search)[1..] == rest;
      } else {
        assert DirectConnected(rings, ring, search) == rest;
        SubsequenceSkip(rest, search);
      }
    }
  }

  /** The subject is never among the rings connected to it. */
  lemma DirectConnectedExcludesSubject(rings: seq<seq<nat>>, ring: nat, search: seq<nat>)
    requires ring < |rings| && forall k :: 0 <= k < |search| ==> search[k] < |rings|
    ensures ring !in DirectConnected(rings, ring, search)
  {
    DirectConnectedMembers(rings, ring, search);
  }

  /** a is a subsequence of b: b with some elements left out. */
  predicate Subsequence<T(==)>(a: seq<T>, b: seq<T>)
  {
    a == [] || (b != [] && ((a[0] == b[0] && Subsequence(a[1..], b[1..])) || Subsequence(a, b[1..])))
  }

  lemma SubsequenceSkip<T>(a: seq<T>, b: seq<T>)
    requires b != [] && Subsequence(a, b[1..])
    ensures Subsequence(a, b)
  {
  }

  /** A subsequence of a strictly increasing list is strictly increasing
      and has only members of the list. */
  lemma {:induction false} SubsequenceIncreasing(a: seq<nat>, b: seq<nat>)
    requires Subsequence(a, b)
    requires forall i, j :: 0 <= i < j < |b| ==> b[i] < b[j]
    ensures forall i, j :: 0 <= i < j < |a| ==> a[i] < a[j]
    ensures forall x :: x in a ==> x in b
  {
    if a != [] {
      assert forall i, j :: 0 <= i < j < |b[1..]| ==> b[1..][i] < b[1..][j];
      if a[0] == b[0] && Subsequence(a[1..], b[1..]) {
        SubsequenceIncreasing(a[1..], b[1..]);
        forall i, j | 0 <= i < j < |a|
          ensures a[i] < a[j]
        {
          if i == 0 {
            assert a[j] == a[1..][j - 1] && a[j] in b[1..];
          } else {
            assert a[i] == a[1..][i - 1] && a[j] == a[1..][j - 1];
          }
        }
        assert forall x :: x in a ==> x == a[0] || x in a[1..];
      } else {
        SubsequenceIncreasing(a, b[1..]);
      }
    }
  }

  /** The numbers lo, lo + 1, ..., hi - 1. */
  function Range(lo: nat, hi: nat): (r: seq<nat>)
    ensures |r| == if lo <= hi then hi - lo else 0
    ensures forall k :: 0 <= k < |r| ==> r[k] == lo + k
    decreases hi - lo
  {
    if lo >= hi then [] else [lo] + Range(lo + 1, hi)
  }

  /** `goog.array.flatten` of a list of partitions. */
  function Flatten(ps: seq<seq<nat>>): seq<nat>
  {
    if ps == [] then [] else Flatten(ps[..|ps| - 1]) + ps[|ps| - 1]
  }

  lemma {:induction false} FlattenMembers(ps: seq<seq<nat>>, x: nat)
    ensures x in Flatten(ps) <==> exists p :: 0 <= p < |ps| && x in ps[p]
  {
    if ps != [] {
      var init := ps[..|ps| - 1];
      FlattenMembers(init, x);
      assert Flatten(ps) == Flatten(init) + ps[|ps| - 1];
      if x in Flatten(init) {
        var p :| 0 <= p < |init| && x in init[p];
        assert x in ps[p];
      }
      if exists p :: 0 <= p < |ps| && x in ps[p] {
        var p :| 0 <= p < |ps| && x in ps[p];
        if p < |init| {
          assert x in init[p];
        }
      }
    }
  }

  /** `goog.array.find(partitions, p => contains(p, ring))`: the first
      partition holding the ring. */
  function FindContaining(ps: seq<seq<nat>>, x: nat): (r: Option<seq<nat>>)
    ensures r.Some? ==> r.value in ps && x in r.value
    ensures r.None? <==> forall p :: 0 <= p < |ps| ==> x !in ps[p]
  {
    if ps == [] then None
    else if x in ps[0] then Some(ps[0])
    else
      var r := FindContaining(ps[1..], x);
      assert forall p :: 1 <= p < |ps| ==> ps[p] == ps[1..][p - 1];
      r
  }

  /** The rings that get a partition of their own: every ring in 1..n-1
      not in the first partition, in input order. */
  function Singles(first: seq<nat>, n: nat): seq<seq<nat>>
  {
    if n <= 1 then [] else Singles(first, n - 1) + (if n - 1 in first then [] else [[n - 1]])
  }

  /** The first partition: ring 0 and the rings directly connected to it. */
  function FirstPartition(rings: seq<seq<nat>>): seq<nat>
    requires |rings| > 0
  {
    [0] + DirectConnected(rings, 0, Range(1, |rings|))
  }

  /** What the effective `getPartitionedRings` returns. */
  function Partitions(rings: seq<seq<nat>>): seq<seq<nat>>
  {
    if rings == [] then [] else [FirstPartition(rings)] + Singles(FirstPartition(rings), |rings|)
  }

  /** `getPartitionedRings(rings)` (partitioner.js:103-121).  A ring
      already in a partition is skipped; otherwise `find` looks for a
      partition holding it, finds none, and the ring starts a partition
      with the rings of `search` directly connected to it.  The callback
      of the filter at line 116 returns nothing, so `search` is empty
      after the first partition and every later partition is one ring. */
  method GetPartitionedRings(rings: seq<seq<nat>>) returns (partitions: seq<seq<nat>>)
    ensures partitions == Partitions(rings)
  {
    partitions := [];
    var search: seq<nat> := Range(0, |rings|);
    ghost var first := if rings == [] then [] else FirstPartition(rings);
    for i := 0 to |rings|
      invariant forall k :: 0 <= k < |search| ==> search[k] < |rings|
      invariant i == 0 ==> partitions == [] && search == Range(0, |rings|)
      invariant i > 0 ==> search == [] && partitions == [first] + Singles(first, i)
      invariant i > 0 ==> forall x: nat :: x in Flatten(partitions) <==> x in first || x < i
    {
      partitions, search := PartitionRing(rings, first, i, partitions, search);
    }
  }

  /** One round of the loop of `getPartitionedRings`
      (partitioner.js:105-120) for ring i: a ring some partition holds is
      skipped, any other starts a partition. */
  method PartitionRing(rings: seq<seq<nat>>, ghost first: seq<nat>, i: nat, partitions0: seq<seq<nat>>,
                       search0: seq<nat>)
    returns (partitions: seq<seq<nat>>, search: seq<nat>)
    requires i < |rings| && first == FirstPartition(rings)
    requires forall k :: 0 <= k < |search0| ==> search0[k] < |rings|
    requires i == 0 ==> partitions0 == [] && search0 == Range(0, |rings|)
    requires i > 0 ==> search0 == [] && partitions0 == [first] + Singles(first, i)
    requires i > 0 ==> forall x: nat :: x in Flatten(partitions0) <==> x in first || x < i
    ensures forall k :: 0 <= k < |search| ==> search[k] < |rings|
    ensures search == [] && partitions == [first] + Singles(first, i + 1)
    ensures forall x: nat :: x in Flatten(partitions) <==> x in first || x < i + 1
  {
    FlattenMembers(partitions0, i);
    partitions, search := partitions0, search0;
    if i !in Flatten(partitions) {
      partitions, search := StartPartition(rings, i, partitions, search);
      if i == 0 {
        assert partitions == [first] + Singles(first, 1);
      } else {
        assert i !in first;
        assert Singles(first, i + 1) == Singles(first, i) + [[i]];
      }
    } else {
      assert i in first;
      assert Singles(first, i + 1) == Singles(first, i);
    }
    FlattenGrows(first, i, partitions0, partitions);
  }

  /** What the partitions hold after ring i. */
  lemma FlattenGrows(first: seq<nat>, i: nat, before: seq<seq<nat>>, after: seq<seq<nat>>)
    requires i == 0 ==> Flatten(after) == first
    requires i > 0 ==> forall x: nat :: x in Flatten(before) <==> x in first || x < i
    requires i > 0 ==> Flatten(after) == Flatten(before) || Flatten(after) == Flatten(before) + [i]
    requires i in first || i in Flatten(after)
    ensures forall x: nat :: x in Flatten(after) <==> x in first || x < i + 1
  {
  }

  /** The body of the loop for a ring no partition holds yet
      (partitioner.js:108-119): `find` finds no partition, the ring leaves
      `search` and starts a partition with the rings of `search` directly
      connected to it, and `search` is left empty. */
  method StartPartition(rings: seq<seq<nat>>, i: nat, partitions0: seq<seq<nat>>, search0: seq<nat>)
    returns (partitions: seq<seq<nat>>, search: seq<nat>)
    requires i < |rings| && forall k :: 0 <= k < |search0| ==> search0[k] < |rings|
    requires i !in Flatten(partitions0)
    requires i == 0 ==> partitions0 == [] && search0 == Range(0, |rings|)
    requires i > 0 ==> search0 == []
    ensures search == []
    ensures partitions == partitions0 + [if i == 0 then FirstPartition(rings) else [i]]
    ensures Flatten(partitions) == Flatten(partitions0) + (if i == 0 then FirstPartition(rings) else [i])
  {
    FlattenMembers(partitions0, i);
    search := search0;
    var found := FindContaining(partitions0, i);
    var connections := match found case None => [i] case Some(p) => p;
    if found.None? {
      SearchWithout(rings, search, i);
      search := Without<nat>(search, [i]);
    }
    var connected := DirectConnected(rings, i, search);
    assert i > 0 ==> connections + connected == [i];
    assert i == 0 ==> connections + connected == FirstPartition(rings);
    connections := connections + connected;
    search := [];
    partitions := partitions0 + [connections];
    assert partitions[..|partitions| - 1] == partitions0;
  }

  /** Dropping a ring from `search` keeps it within the ring table, and
      dropping ring 0 from all rings leaves rings 1..n-1. */
  lemma SearchWithout(rings: seq<seq<nat>>, search: seq<nat>, i: nat)
    requires forall k :: 0 <= k < |search| ==> search[k] < |rings|
    ensures forall k :: 0 <= k < |Without<nat>(search, [i])| ==> Without<nat>(search, [i])[k] < |rings|
    ensures i == 0 && search == Range(0, |rings|) && |rings| > 0 ==> Without<nat>(search, [i]) == Range(1, |rings|)
  {
    var rest := Without<nat>(search, [i]);
    forall k | 0 <= k < |rest|
      ensures rest[k] < |rings|
    {
      WithoutMember<nat>(search, [i], rest[k]);
      assert rest[k] in rest;
      var q :| 0 <= q < |search| && search[q] == rest[k];
    }
    if i == 0 && search == Range(0, |rings|) && |rings| > 0 {
      assert search == [0] + Range(1, |rings|);
      WithoutNone(Range(1, |rings|), [0]);
    }
  }

  /** Every partition of ss is one ring from 1..n-1 outside `first`, and
      the rings increase. */
  predicate SinglesOrdered(ss: seq<seq<nat>>, first: seq<nat>, n: nat)
  {
    (forall p :: 0 <= p < |ss| ==> |ss[p]| == 1 && 1 <= ss[p][0] < n && ss[p][0] !in first) &&
    forall p, q :: 0 <= p < q < |ss| ==> ss[p][0] < ss[q][0]
  }

  lemma {:induction false} SinglesShape(first: seq<nat>, n: nat)
    ensures SinglesOrdered(Singles(first, n), first, n)
  {
    if n > 1 {
      SinglesShape(first, n - 1);
      var ss := Singles(first, n);
      var init := Singles(first, n - 1);
      var last: seq<seq<nat>> := if n - 1 in first then [] else [[n - 1]];
      assert ss == init + last;
      forall p | 0 <= p < |ss|
        ensures |ss[p]| == 1 && 1 <= ss[p][0] < n && ss[p][0] !in first
      {
        if p < |init| {
          assert ss[p] == init[p];
        } else {
          assert ss[p] == [n - 1];
        }
      }
      forall p, q | 0 <= p < q < |ss|
        ensures ss[p][0] < ss[q][0]
      {
        assert ss[p] == init[p];
        if q < |init| {
          assert ss[q] == init[q];
        } else {
          assert ss[q] == [n - 1];
        }
      }
    }
  }

  /** Every ring from 1..n-1 outside the first partition is a single. */
  lemma {:induction false} SinglesCover(first: seq<nat>, n: nat, k: nat)
    requires 1 <= k < n && k !in first
    ensures exists p :: 0 <= p < |Singles(first, n)| && Singles(first, n)[p] == [k]
  {
    var ss := Singles(first, n);
    var init := Singles(first, n - 1);
    assert ss[..|init|] == init;
    if k < n - 1 {
      SinglesCover(first, n - 1, k);
      var p :| 0 <= p < |init| && init[p] == [k];
      assert ss[p] == [k];
    } else {
      assert ss[|init|] == [k];
    }
  }

  /** The first partition is ring 0 followed by rings in increasing
      order, all of them below n. */
  lemma FirstPartitionFacts(rings: seq<seq<nat>>)
    requires |rings| > 0
    ensures var first := FirstPartition(rings);
      first[0] == 0 && Distinct(first) && forall i :: 0 <= i < |first| ==> first[i] < |rings|
  {
    var n := |rings|;
    var dc := DirectConnected(rings, 0, Range(1, n));
    DirectConnectedMembers(rings, 0, Range(1, n));
    SubsequenceIncreasing(dc, Range(1, n));
    var first := FirstPartition(rings);
    forall i | 0 < i < |first|
      ensures 1 <= first[i] < n
    {
      assert first[i] == dc[i - 1] && dc[i - 1] in Range(1, n);
    }
    forall i, j | 0 <= i < j < |first|
      ensures first[i] != first[j]
    {
      if i > 0 {
        assert first[i] == dc[i - 1] && first[j] == dc[j - 1];
      }
    }
  }

  /** Some partition holds ring k. */
  predicate InSomePartition(ps: seq<seq<nat>>, k: nat)
  {
    exists p :: 0 <= p < |ps| && k in ps[p]
  }

  /** Every ring lands in some partition. */
  lemma PartitionsCover(rings: seq<seq<nat>>)
    ensures forall k :: 0 <= k < |rings| ==> InSomePartition(Partitions(rings), k)
  {
    if rings != [] {
      var n := |rings|;
      var first := FirstPartition(rings);
      var ss := Singles(first, n);
      var ps := Partitions(rings);
      forall k | 0 <= k < n
        ensures InSomePartition(ps, k)
      {
        if k !in first {
          assert k != 0;
          SinglesCover(first, n, k);
          var p :| 0 <= p < |ss| && ss[p] == [k];
          assert ps[p + 1] == ss[p];
          assert k in ps[p + 1];
        } else {
          assert k in ps[0];
        }
      }
    }
  }

  /** No ring lands in two partitions. */
  lemma PartitionsDisjoint(rings: seq<seq<nat>>)
    ensures var ps := Partitions(rings);
      forall p, q, k :: 0 <= p < |ps| && 0 <= q < |ps| && k in ps[p] && k in ps[q] ==> p == q
  {
    if rings != [] {
      var n := |rings|;
      var first := FirstPartition(rings);
      var ss := Singles(first, n);
      var ps := Partitions(rings);
      SinglesShape(first, n);
      assert forall p :: 0 < p < |ps| ==> ps[p] == ss[p - 1];
      forall p, q, k | 0 <= p < |ps| && 0 <= q < |ps| && k in ps[p] && k in ps[q]
        ensures p == q
      {
        if p > 0 {
          assert ps[p] == [ss[p - 1][0]];
        }
        if q > 0 {
          assert ps[q] == [ss[q - 1][0]];
        }
      }
    }
  }

  /** Each partition lists distinct rings of the input; only the first
      can hold more than one ring; and each partition starts with a ring
      that no earlier partition holds. */
  lemma PartitionsShape(rings: seq<seq<nat>>)
    ensures var ps := Partitions(rings);
      forall p :: 0 <= p < |ps| ==> |ps[p]| > 0 && Distinct(ps[p])
    ensures var ps := Partitions(rings);
      forall p, i :: 0 <= p < |ps| && 0 <= i < |ps[p]| ==> ps[p][i] < |rings|
    ensures var ps := Partitions(rings);
      forall p :: 0 < p < |ps| ==> |ps[p]| == 1
    ensures var ps := Partitions(rings);
      forall p, q :: 0 <= q < p < |ps| ==> ps[p][0] !in ps[q]
  {
    if rings != [] {
      PartitionsEach(rings);
      PartitionsHeads(rings);
    }
  }

  /** Each partition, on its own. */
  lemma PartitionsEach(rings: seq<seq<nat>>)
    requires rings != []
    ensures var ps := Partitions(rings);
      forall p :: 0 <= p < |ps| ==>
        |ps[p]| > 0 && Distinct(ps[p]) && (forall i :: 0 <= i < |ps[p]| ==> ps[p][i] < |rings|) && (p > 0 ==> |ps[p]| == 1)
  {
    var n := |rings|;
    var first := FirstPartition(rings);
    var ss := Singles(first, n);
    var ps := Partitions(rings);
    FirstPartitionFacts(rings);
    SinglesShape(first, n);
    forall p | 0 <= p < |ps|
      ensures |ps[p]| > 0 && Distinct(ps[p]) && (forall i :: 0 <= i < |ps[p]| ==> ps[p][i] < |rings|) && (p > 0 ==> |ps[p]| == 1)
    {
      if p > 0 {
        assert ps[p] == ss[p - 1] == [ss[p - 1][0]];
      } else {
        assert ps[p] == first;
      }
    }
  }

  /** Each partition starts with a ring no earlier partition holds. */
  lemma PartitionsHeads(rings: seq<seq<nat>>)
    requires rings != []
    ensures var ps := Partitions(rings);
      forall p, q :: 0 <= q < p < |ps| ==> |ps[p]| > 0 && ps[p][0] !in ps[q]
  {
    var n := |rings|;
    var first := FirstPartition(rings);
    var ss := Singles(first, n);
    var ps := Partitions(rings);
    SinglesShape(first, n);
    forall p, q | 0 <= q < p < |ps|
      ensures |ps[p]| > 0 && ps[p][0] !in ps[q]
    {
      assert ps[p] == ss[p - 1] == [ss[p - 1][0]];
      if q > 0 {
        assert ps[q] == ss[q - 1] == [ss[q - 1][0]];
        assert ss[q - 1][0] < ss[p - 1][0];
      } else {
        assert ps[q] == first;
      }
    }
  }
}
