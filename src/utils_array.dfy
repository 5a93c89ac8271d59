// src/utils/array.js: `empty(n)` allocates an array of n holes and
// `full(n, v)` fills such an array in place.  A hole (JavaScript's
// `undefined`) is None; `new Array(n)` with a negative n throws.

module ArrayUtil {
  import opened Wrappers

  method Empty<T>(n: int) returns (r: Result<array<Option<T>>>)
    ensures r.Err? <==> n < 0
    ensures r.Ok? ==> fresh(r.value) && r.value.Length == n
    ensures r.Ok? ==> forall i :: 0 <= i < n ==> r.value[i] == None
  {
    if n < 0 {
      return Err("RangeError: Invalid array length");
    }
    var a := new Option<T>[n](_ => None);
    return Ok(a);
  }

  method Full<T>(n: int, fillValue: T) returns (r: Result<array<Option<T>>>)
    ensures r.Err? <==> n < 0
    ensures r.Ok? ==> fresh(r.value) && r.value.Length == n
    ensures r.Ok? ==> forall i :: 0 <= i < n ==> r.value[i] == Some(fillValue)
  {
    r := Empty(n);
    if r.Err? {
      return;
    }
    var a := r.value;
    var i := 0;
    while i < a.Length
      invariant 0 <= i <= a.Length
      invariant forall k :: 0 <= k < i ==> a[k] == Some(fillValue)
    {
      a[i] := Some(fillValue);
      i := i + 1;
    }
  }
}
