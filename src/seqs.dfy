// Sequence helpers standing for the Closure library calls the source uses
// on arrays: `goog.array.contains` is `in`, `goog.array.remove` removes the
// first occurrence, and removing every member of a list is `Without`.

module Seqs {

  /** No value occurs twice. */
  predicate Distinct<T(==)>(s: seq<T>)
  {
    forall i, j :: 0 <= i < j < |s| ==> s[i] != s[j]
  }

  /** Appending groups either way. */
  lemma AppendAssoc<T>(a: seq<T>, b: seq<T>, c: seq<T>)
    ensures (a + b) + c == a + (b + c)
  {
  }

  /** `goog.array.remove(s, x)`: drop the first occurrence of x, if any. */
  function RemoveFirst<T(==)>(s: seq<T>, x: T): (r: seq<T>)
    ensures x !in s ==> r == s
    ensures x in s ==> |r| == |s| - 1
    ensures forall y :: y in r ==> y in s
  {
    if s == [] then []
    else if s[0] == x then s[1..]
    else [s[0]] + RemoveFirst(s[1..], x)
  }

  /** The elements of s that are not in xs, in their order. */
  function Without<T(==)>(s: seq<T>, xs: seq<T>): (r: seq<T>)
    ensures |r| <= |s|
  {
    if s == [] then []
    else (if s[0] in xs then [] else [s[0]]) + Without(s[1..], xs)
  }

  lemma {:induction false} WithoutMember<T>(s: seq<T>, xs: seq<T>, y: T)
    ensures y in Without(s, xs) <==> y in s && y !in xs
  {
    if s != [] {
      WithoutMember(s[1..], xs, y);
      assert s == [s[0]] + s[1..];
    }
  }

  lemma {:induction false} WithoutDistinct<T>(s: seq<T>, xs: seq<T>)
    requires Distinct(s)
    ensures Distinct(Without(s, xs))
  {
    if s != [] {
      WithoutDistinct(s[1..], xs);
      WithoutMember(s[1..], xs, s[0]);
    }
  }

  /** Only which values xs holds matters to Without, not their order. */
  lemma {:induction false} WithoutSameMembers<T>(s: seq<T>, xs: seq<T>, ys: seq<T>)
    requires forall y :: y in s ==> (y in xs <==> y in ys)
    ensures Without(s, xs) == Without(s, ys)
  {
    if s != [] {
      WithoutSameMembers(s[1..], xs, ys);
    }
  }

  /** Removing an element from a list without repetitions is the same
      as adding it to the removed set. */
  lemma {:induction false} RemoveFirstWithout<T>(s: seq<T>, xs: seq<T>, x: T)
    requires Distinct(s)
    ensures RemoveFirst(Without(s, xs), x) == Without(s, xs + [x])
  {
    if s != [] {
      var t := s[1..];
      assert Distinct(t);
      if s[0] == x {
        assert x !in t;
        WithoutMember(t, xs, x);
        WithoutSameMembers(t, xs, xs + [x]);
        if x in xs {
          assert Without(s, xs) == Without(t, xs);
        } else {
          assert Without(s, xs) == [x] + Without(t, xs);
        }
      } else {
        RemoveFirstWithout(t, xs, x);
        if s[0] in xs {
          assert Without(s, xs) == Without(t, xs);
        } else {
          assert Without(s, xs) == [s[0]] + Without(t, xs);
        }
      }
    }
  }

  lemma {:induction false} WithoutNothing<T>(s: seq<T>)
    ensures Without(s, []) == s
  {
    if s != [] {
      WithoutNothing(s[1..]);
      assert s == [s[0]] + s[1..];
    }
  }

  lemma {:induction false} WithoutAppend<T>(s: seq<T>, x: T, xs: seq<T>)
    ensures Without(s + [x], xs) == Without(s, xs) + (if x in xs then [] else [x])
  {
    if s == [] {
      assert [x][1..] == [];
    } else {
      var t := s + [x];
      assert t[0] == s[0] && t[1..] == s[1..] + [x];
      WithoutAppend(s[1..], x, xs);
      var head := if s[0] in xs then [] else [s[0]];
      var tail := if x in xs then [] else [x];
      assert Without(t, xs) == head + (Without(s[1..], xs) + tail);
      assert Without(s, xs) == head + Without(s[1..], xs);
    }
  }

  lemma {:induction false} WithoutNone<T>(s: seq<T>, xs: seq<T>)
    requires forall y :: y in s ==> y !in xs
    ensures Without(s, xs) == s
  {
    if s != [] {
      WithoutNone(s[1..], xs);
      assert s == [s[0]] + s[1..];
    }
  }

  lemma {:induction false} WithoutOne<T>(s: seq<T>, x: T)
    requires Distinct(s) && x in s
    ensures |Without(s, [x])| == |s| - 1
  {
    if s[0] == x {
      WithoutNone(s[1..], [x]);
    } else {
      WithoutOne(s[1..], x);
    }
  }

  /** Removing a value that occurs shortens the list. */
  lemma {:induction false} WithoutDrops<T>(s: seq<T>, x: T)
    requires x in s
    ensures |Without(s, [x])| < |s|
  {
    if s[0] != x {
      WithoutDrops(s[1..], x);
    }
  }

  /** A list of distinct indices below n has at most n entries. */
  lemma {:induction false} DistinctBelow(s: seq<nat>, n: nat)
    requires Distinct(s)
    requires forall k :: 0 <= k < |s| ==> s[k] < n
    ensures |s| <= n
    decreases n
  {
    if n > 0 {
      var top: nat := n - 1;
      var tops: seq<nat> := [top];
      var t := Without(s, tops);
      WithoutDistinct(s, tops);
      forall k | 0 <= k < |t|
        ensures t[k] < top
      {
        var y := t[k];
        assert y in t;
        WithoutMember<nat>(s, tops, y);
        assert y in s;
        var q :| 0 <= q < |s| && s[q] == y;
      }
      DistinctBelow(t, top);
      if top in s {
        WithoutOne(s, top);
      } else {
        WithoutNone(s, tops);
      }
    }
  }

  /** `Array.prototype.reverse`. */
  function Reverse<T>(s: seq<T>): (r: seq<T>)
    ensures |r| == |s|
  {
    if s == [] then [] else Reverse(s[1..]) + [s[0]]
  }

  lemma {:induction false} ReverseAt<T>(s: seq<T>, k: nat)
    requires k < |s|
    ensures Reverse(s)[k] == s[|s| - 1 - k]
  {
    if k < |s| - 1 {
      ReverseAt(s[1..], k);
    }
  }

  /** Reversing keeps the same members. */
  lemma ReverseMembers<T>(s: seq<T>)
    ensures forall y :: y in Reverse(s) <==> y in s
  {
    forall y | y in Reverse(s)
      ensures y in s
    {
      var k :| 0 <= k < |s| && Reverse(s)[k] == y;
      ReverseAt(s, k);
    }
    forall y | y in s
      ensures y in Reverse(s)
    {
      var k :| 0 <= k < |s| && s[k] == y;
      ReverseAt(s, |s| - 1 - k);
    }
  }
  /** The number of false entries. */
  function CountFalse(s: seq<bool>): nat
  {
    if s == [] then 0 else (if s[0] then 0 else 1) + CountFalse(s[1..])
  }

  /** Setting an entry to true removes one false entry, if it was false. */
  lemma {:induction false} CountFalseSet(s: seq<bool>, i: nat)
    requires i < |s|
    ensures CountFalse(s[i := true]) == CountFalse(s) - (if s[i] then 0 else 1)
  {
    if i > 0 {
      assert s[i := true][1..] == s[1..][i - 1 := true];
      CountFalseSet(s[1..], i - 1);
    } else {
      assert s[i := true][1..] == s[1..];
    }
  }

  /** `goog.array.indexOf(s, x)`: the first position of x, or -1. */
  function IndexOf<T(==)>(s: seq<T>, x: T): (r: int)
    ensures r == -1 <==> x !in s
    ensures r != -1 ==> 0 <= r < |s| && s[r] == x && x !in s[..r]
  {
    if s == [] then -1
    else if s[0] == x then 0
    else
      var k := IndexOf(s[1..], x);
      assert s[1..][..if k < 0 then 0 else k] == s[1..1 + (if k < 0 then 0 else k)];
      if k == -1 then -1 else k + 1
  }

  /** `forEach(xs, x => goog.array.remove(s, x))`: the first occurrence of
      each member of xs removed in turn. */
  function RemoveEach<T(==)>(s: seq<T>, xs: seq<T>): seq<T>
  {
    if xs == [] then s
    else RemoveFirst(RemoveEach(s, xs[..|xs| - 1]), xs[|xs| - 1])
  }

  /** On a list without repetitions, removing the members one by one
      removes exactly them. */
  lemma {:induction false} RemoveEachWithout<T>(s: seq<T>, xs: seq<T>)
    requires Distinct(s)
    ensures RemoveEach(s, xs) == Without(s, xs)
  {
    if xs == [] {
      WithoutNothing(s);
    } else {
      var front := xs[..|xs| - 1];
      RemoveEachWithout(s, front);
      RemoveFirstWithout(s, front, xs[|xs| - 1]);
      assert front + [xs[|xs| - 1]] == xs;
    }
  }
}
