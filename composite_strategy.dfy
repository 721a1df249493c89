/**
 * `CompositeStrategy::apply` (`strategy/composite_strategy.rs`): the
 * strategies run one after another, each on the ants its predecessor left
 * over, and their orders are concatenated in strategy order.
 *
 * In this iteration a strategy takes a list of available ants and returns
 * the ants it did not use together with its orders; the world it also reads
 * is fixed for the whole call and is folded into the strategy values.
 */
module CompositeStrategy {
  import opened Grid

  /** A strategy: available ants to (leftover ants, orders). */
  type Strategy = seq<Position> -> (seq<Position>, seq<Order>)

  /** Running strategies in sequence: the first sees `ants`, each later one
      the leftover of the one before; the result is the last leftover and all
      orders, in strategy order. */
  function Run(strategies: seq<Strategy>, ants: seq<Position>): (seq<Position>, seq<Order>)
  {
    if strategies == [] then (ants, [])
    else
      var first := strategies[0](ants);
      var rest := Run(strategies[1..], first.0);
      (rest.0, first.1 + rest.1)
  }

  /** Running a list of strategies in two parts: the second part starts from
      the first part's leftover, and the orders are concatenated. */
  lemma {:induction false} RunAppend(s1: seq<Strategy>, s2: seq<Strategy>, ants: seq<Position>)
    ensures Run(s1 + s2, ants).0 == Run(s2, Run(s1, ants).0).0
    ensures Run(s1 + s2, ants).1 == Run(s1, ants).1 + Run(s2, Run(s1, ants).0).1
  {
    if s1 == [] {
      assert s1 + s2 == s2;
    } else {
      assert (s1 + s2)[1..] == s1[1..] + s2;
      RunAppend(s1[1..], s2, s1[0](ants).0);
    }
  }

  /** One strategy alone gives exactly its own result. */
  lemma RunSingle(s: Strategy, ants: seq<Position>)
    ensures Run([s], ants) == s(ants)
  {
    assert [s][1..] == [];
    var r := s(ants);
    assert r.1 + [] == r.1;
    assert Run([s], ants) == (r.0, r.1 + []);
  }

  /**
   * `apply`: the first strategy gets a copy of `antsAvailable`; after each
   * strategy the working list of ants is cleared and refilled with its
   * leftover, and its orders are appended. The orders returned are those of
   * `Run`, and the leftover returned is always empty.
   */
  method Apply(strategies: seq<Strategy>, antsAvailable: seq<Position>)
    returns (leftover: seq<Position>, resultOrders: seq<Order>)
    ensures leftover == []
    ensures resultOrders == Run(strategies, antsAvailable).1
  {
    resultOrders := [];
    var restAnts := antsAvailable;
    var i := 0;
    while i < |strategies|
      invariant 0 <= i <= |strategies|
      invariant restAnts == Run(strategies[..i], antsAvailable).0
      invariant resultOrders == Run(strategies[..i], antsAvailable).1
    {
      var (ants, orders) := strategies[i](restAnts);
      RunAppend(strategies[..i], [strategies[i]], antsAvailable);
      RunSingle(strategies[i], restAnts);
      assert strategies[..i + 1] == strategies[..i] + [strategies[i]];

      restAnts := [];
      var j := 0;
      while j < |ants|
        invariant 0 <= j <= |ants|
        invariant restAnts == ants[..j]
      {
        restAnts := restAnts + [ants[j]];
        j := j + 1;
      }
      assert ants[..j] == ants;

      var k := 0;
      ghost var before := resultOrders;
      while k < |orders|
        invariant 0 <= k <= |orders|
        invariant resultOrders == before + orders[..k]
      {
        resultOrders := resultOrders + [orders[k]];
        k := k + 1;
      }
      assert orders[..k] == orders;
      i := i + 1;
    }
    assert strategies[..i] == strategies;
    leftover := [];
  }
}
