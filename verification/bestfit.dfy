/**
 * The placement policy of `dmalloc`: one pass over the free list, keeping the
 * smallest node that still has room, and replacing it only on a strictly
 * smaller one.  Stated over the node sizes in list order.
 */
module BestFit {
  import opened Wrappers

  /** Node `k` has at least `need` payload bytes. */
  predicate Fits(sizes: seq<nat>, need: nat, k: nat) {
    k < |sizes| && sizes[k] >= need
  }

  /** Node `k` fits, no node among the first `upto` that fits is smaller, and
      every fitting node before `k` is strictly larger (ties go to the first). */
  predicate BestAmong(sizes: seq<nat>, need: nat, k: nat, upto: nat)
    requires upto <= |sizes|
  {
    && k < upto
    && Fits(sizes, need, k)
    && (forall q :: 0 <= q < upto && sizes[q] >= need ==> sizes[k] <= sizes[q])
    && (forall q :: 0 <= q < k && sizes[q] >= need ==> sizes[k] < sizes[q])
  }

  /** Node `k` is the best fit over the whole list. */
  predicate IsBestFit(sizes: seq<nat>, need: nat, k: nat) {
    BestAmong(sizes, need, k, |sizes|)
  }

  /** The scan from node `i` on, with `best` the node kept so far. */
  function Scan(sizes: seq<nat>, need: nat, i: nat, best: Option<nat>): (r: Option<nat>)
    requires i <= |sizes|
    requires best.None? ==> forall q :: 0 <= q < i ==> sizes[q] < need
    requires best.Some? ==> BestAmong(sizes, need, best.value, i)
    ensures r.None? <==> forall q :: 0 <= q < |sizes| ==> sizes[q] < need
    ensures r.Some? ==> IsBestFit(sizes, need, r.value)
    decreases |sizes| - i
  {
    if i == |sizes| then best
    else if sizes[i] >= need && (best.None? || sizes[best.value] > sizes[i]) then
      Scan(sizes, need, i + 1, Some(i))
    else
      Scan(sizes, need, i + 1, best)
  }

  /** The node best fit picks: none exactly when no node has room, and
      otherwise the smallest node with room, the first one among equals. */
  function Choose(sizes: seq<nat>, need: nat): (r: Option<nat>)
    ensures r.None? <==> forall q :: 0 <= q < |sizes| ==> sizes[q] < need
    ensures r.Some? ==> IsBestFit(sizes, need, r.value)
  {
    Scan(sizes, need, 0, None)
  }

  /** At most one node is the best fit: the policy leaves no choice open. */
  lemma {:induction false} BestFitUnique(sizes: seq<nat>, need: nat, k1: nat, k2: nat)
    requires IsBestFit(sizes, need, k1) && IsBestFit(sizes, need, k2)
    ensures k1 == k2
  {
  }

  /** Best fit picks exactly the node the policy describes. */
  lemma {:induction false} ChooseIsBestFit(sizes: seq<nat>, need: nat, k: nat)
    requires IsBestFit(sizes, need, k)
    ensures Choose(sizes, need) == Some(k)
  {
  }
}
