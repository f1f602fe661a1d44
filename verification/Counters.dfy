/** Arrays of counters. */
module Counters {

  method Increment(a: array<nat>, i: nat)
    requires i < a.Length
    modifies a
    ensures a[..] == old(a[..])[i := old(a[i]) + 1]
  {
    a[i] := a[i] + 1;
  }
}
