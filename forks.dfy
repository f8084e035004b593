/**
 * The forks: one Semaphore(1) per fork, modelled by its permit count. A
 * blocking acquire is modelled sequentially: it may only be called when a
 * permit is available.
 */
module Forks {

  /** Every fork has its one permit: nobody holds it. */
  predicate AllFree(permits: seq<int>) {
    forall f :: 0 <= f < |permits| ==> permits[f] == 1
  }

  /** Adds one permit to fork f. */
  function Bump(permits: seq<int>, f: int): (r: seq<int>)
    requires 0 <= f < |permits|
  {
    permits[f := permits[f] + 1]
  }

  /** `forks[i] = new Semaphore(1)` for every i < n. */
  method NewForks(n: nat) returns (forks: array<int>)
    ensures fresh(forks) && forks.Length == n
    ensures AllFree(forks[..])
  {
    forks := new int[n];
    for i := 0 to n
      invariant forall f :: 0 <= f < i ==> forks[f] == 1
    {
      forks[i] := 1;
    }
  }

  /** Semaphore.acquire: takes one permit of fork f. */
  method Acquire(forks: array<int>, f: int)
    requires 0 <= f < forks.Length && forks[f] >= 1
    modifies forks
    ensures forks[..] == old(forks[..])[f := old(forks[f]) - 1]
  {
    forks[f] := forks[f] - 1;
  }

  /** Semaphore.release: adds one permit to fork f, whether or not it was held. */
  method Release(forks: array<int>, f: int)
    requires 0 <= f < forks.Length
    modifies forks
    ensures forks[..] == Bump(old(forks[..]), f)
  {
    forks[f] := forks[f] + 1;
  }
}
