/** The Fisher–Yates `shuffle` used by both pages (the quiz and the flashcards
    carry identical copies). `Math.random` is modelled as an unconstrained
    choice of the swap index in `0..i`, so every property below holds for every
    sequence of random draws. */
module Shuffling {

  /** Swaps `a[i]` and `a[j]`, as `[a[i], a[j]] = [a[j], a[i]]` does. */
  method Swap<T>(a: array<T>, i: nat, j: nat)
    requires i < a.Length && j < a.Length
    modifies a
    ensures a[..] == old(a[..])[i := old(a[j])][j := old(a[i])]
    ensures multiset(a[..]) == old(multiset(a[..]))
  {
    var t := a[i];
    a[i] := a[j];
    a[j] := t;
  }

  /** Shuffles a copy of `arr` in place and returns it; `arr` itself is a value
      and stays as it was. The result is a permutation of the input. */
  method Shuffle<T>(arr: seq<T>) returns (r: seq<T>)
    ensures |r| == |arr|
    ensures multiset(r) == multiset(arr)
  {
    var a := new T[|arr|](k requires 0 <= k < |arr| => arr[k]);
    assert a[..] == arr;
    var i := a.Length - 1;
    while i > 0
      invariant i < a.Length
      invariant multiset(a[..]) == multiset(arr)
    {
      var j :| 0 <= j <= i;
      Swap(a, i, j);
      i := i - 1;
    }
    r := a[..];
  }
}
