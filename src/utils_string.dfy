// src/utils/string.js: the one helper `startsWith`, written with
// String.prototype.lastIndexOf searching backwards from position 0.

module StringUtil {

  /** Does `p` occur in `s` at position `k`? */
  predicate OccursAt(s: string, p: string, k: nat)
  {
    k + |p| <= |s| && s[k..k + |p|] == p
  }

  /** `s.lastIndexOf(p, from)`: the last position not after `from`
      (clamped into 0..|s|) where `p` occurs, or -1. */
  function LastIndexOf(s: string, p: string, from: int): (r: int)
    ensures -1 <= r
    ensures r >= 0 ==> r <= Clamp(from, |s|) && OccursAt(s, p, r)
    ensures forall k: nat :: r < k <= Clamp(from, |s|) ==> !OccursAt(s, p, k)
  {
    LastIndexFrom(s, p, Clamp(from, |s|))
  }

  function Clamp(from: int, len: nat): nat
  {
    if from < 0 then 0 else if from > len then len else from
  }

  function LastIndexFrom(s: string, p: string, k: nat): (r: int)
    ensures -1 <= r <= k
    ensures r >= 0 ==> OccursAt(s, p, r)
    ensures forall j: nat :: r < j <= k ==> !OccursAt(s, p, j)
  {
    if OccursAt(s, p, k) then k
    else if k == 0 then -1
    else LastIndexFrom(s, p, k - 1)
  }

  /** `startsWith(str, prefix)`: holds exactly when `prefix` is a prefix
      of `str`; so the empty prefix always matches, a prefix longer than
      the string never does, and every string starts with itself. */
  function StartsWith(str: string, prefix: string): (r: bool)
    ensures r <==> prefix <= str
  {
    LastIndexOf(str, prefix, 0) == 0
  }
}
