/** The invocations of a dispatch. A kernel loop that repeatedly takes an arbitrary member
    of such a set covers every order in which the hardware may run them. */
module Dispatch {

  /** Invocation ids 0..n-1. */
  function Invocations(n: nat): (s: set<nat>)
    ensures forall t: nat :: t in s <==> t < n
  {
    if n == 0 then {} else Invocations(n - 1) + {n - 1}
  }

  lemma SomeInvocation(s: set<nat>)
    requires s != {}
    ensures exists t: nat :: t in s
  {
  }

  /** Workgroups (t, b) of an x-by-y dispatch. */
  function Grid(x: nat, y: nat): (s: set<(nat, nat)>)
    ensures forall t: nat, b: nat :: (t, b) in s <==> t < x && b < y
  {
    if y == 0 then {} else Grid(x, y - 1) + Row(x, y - 1)
  }

  function Row(x: nat, y: nat): (s: set<(nat, nat)>)
    ensures forall t: nat, b: nat :: (t, b) in s <==> t < x && b == y
  {
    if x == 0 then {} else Row(x - 1, y) + {(x - 1, y)}
  }
}
