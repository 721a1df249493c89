/**
 * `nearest_orders` (`strategy/search.rs`), the earlier free-function form
 * of the breadth-first search: the same reversed, layered search with the
 * same quota and cutoff, so it is modelled by delegating to `Bfs.Search`.
 * Its contract is stated from the caller's side: every order moves an ant
 * of `from` one round closer to the destination.
 */
module NearestOrders {
  import opened Grid
  import opened Bfs

  /**
   * At most `maxResultLen` orders, and no more than there are sources; each
   * moves a source first reached in some round no later than `cutoff` along
   * a direction offered at its target back into the previous round's fringe;
   * orders come nearest first; and short of the quota every source reached
   * within the cutoff gets an order.
   */
  method NearestOrders(avail: Position -> seq<Direction>, size: Position, to: Position,
                       from: set<Position>, maxResultLen: nat, cutoff: nat)
    returns (results: seq<Order>, ghost rounds: seq<nat>)
    requires ValidSize(size)
    ensures |results| <= maxResultLen && |results| <= |from| && |rounds| == |results|
    ensures forall i :: 0 <= i < |results| ==>
      && results[i].pos in from
      && 1 <= rounds[i] <= cutoff
      && results[i].pos in Layer(rounds[i], to, avail, size)
    ensures InGrid(to, size) ==> forall i :: 0 <= i < |results| ==>
      && TargetPos(results[i], size) in Layer(rounds[i] - 1, to, avail, size)
      && Opposite(results[i].dir) in avail(TargetPos(results[i], size))
    ensures forall i, j :: 0 <= i < j < |results| ==> rounds[i] <= rounds[j]
    ensures |results| < maxResultLen && |results| < |from| ==>
      forall k: nat, p :: 1 <= k <= cutoff && p in from && p in Layer(k, to, avail, size) ==>
        exists i :: 0 <= i < |results| && results[i].pos == p
  {
    ghost var forward;
    results, rounds, forward := Search(avail, size, to, from, maxResultLen, cutoff);
    if InGrid(to, size) {
      forall i | 0 <= i < |results|
        ensures TargetPos(results[i], size) in Layer(rounds[i] - 1, to, avail, size)
        ensures Opposite(results[i].dir) in avail(TargetPos(results[i], size))
      {
        assert Found(results[i], forward[i], rounds[i], to, from, avail, size);
        LayersInGrid(rounds[i] - 1, to, avail, size);
        ReverseInvolution(forward[i], size);
      }
    }
  }
}
