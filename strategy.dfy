/**
 * `best_orders_to_target` (`strategy/mod.rs`): the shared step of the
 * target-seeking strategies. The targets are collected into a set, the
 * multi-target search pairs available ants with targets, every chosen ant
 * leaves the pool of available ants, and each chosen path contributes its
 * first move as an order.
 */
module Strategy {
  import opened Grid
  import opened SearchResults
  import opened Sequences
  import opened MultiSearch

  /** The first orders of the results, in result order; a result without a
      first move contributes none. */
  function FirstOrders(results: seq<SearchResult>, size: Position): (r: seq<Order>)
    requires ValidSize(size)
    ensures |r| <= |results|
    ensures forall o :: o in r ==> exists k :: 0 <= k < |results| && FirstOrder(results[k], size) == Some(o)
    ensures forall o :: o in r ==> o.pos in FirstSteps(results)
  {
    if results == [] then []
    else
      var rest := FirstOrders(results[1..], size);
      assert forall k :: 0 < k < |results| ==> results[k] == results[1..][k - 1];
      assert forall c :: c in results[1..] ==> c in results;
      match FirstOrder(results[0], size)
      case None => rest
      case Some(o) => [o] + rest
  }

  /** Results with distinct first steps give orders for distinct ants. */
  lemma {:induction false} FirstOrdersDistinctAnts(results: seq<SearchResult>, size: Position)
    requires ValidSize(size) && ConflictFree(results)
    ensures forall i, j :: 0 <= i < j < |FirstOrders(results, size)| ==>
      FirstOrders(results, size)[i].pos != FirstOrders(results, size)[j].pos
  {
    if results != [] {
      var tail := results[1..];
      assert ConflictFree(tail) by {
        forall i, j | 0 <= i < j < |tail|
          ensures FirstStep(tail[i]) != FirstStep(tail[j]) && LastStep(tail[i]) != LastStep(tail[j])
        {
          assert tail[i] == results[i + 1] && tail[j] == results[j + 1];
        }
      }
      FirstOrdersDistinctAnts(tail, size);
      forall c | c in tail
        ensures FirstStep(c) != FirstStep(results[0])
      {
        var k :| 0 <= k < |tail| && tail[k] == c;
        assert results[k + 1] == c;
      }
    }
  }

  /** Every result that is a walk of at least one move gives an order. */
  lemma {:induction false} FirstOrdersOfWalks(results: seq<SearchResult>, size: Position)
    requires ValidSize(size)
    requires forall k :: 0 <= k < |results| ==> IsWalk(results[k], size) && |results[k]| >= 2
    ensures |FirstOrders(results, size)| == |results|
  {
    if results != [] {
      WalkHasFirstOrder(results[0], size);
      FirstOrdersOfWalks(results[1..], size);
    }
  }

  /**
   * `best_orders_to_target`. `antsAvailable` is the pool before the call and
   * `antsLeft` the pool after it: the old pool less the first step of every
   * chosen result. With a sound search, exactly one ant leaves the pool per
   * chosen result, each ordered ant is one that left it, and no ant gets
   * two orders. `pooled` is every path the single-target search returned,
   * target by target in the order `visited`; the chosen results are drawn
   * from it, and every pooled path left out clashes with a chosen one.
   */
  method BestOrdersToTarget(search: SingleTargetSearch, targets: seq<Position>, size: Position,
                            antsAvailable: set<Position>, maxResultLen: nat, cutoff: nat)
    returns (orders: seq<Order>, antsLeft: set<Position>, ghost results: seq<SearchResult>,
             ghost visited: seq<Position>, ghost pooled: seq<SearchResult>)
    requires ValidSize(size)
    ensures Elements(visited) == Elements(targets) && NoDuplicates(visited)
    ensures pooled == Pooled(search, antsAvailable, visited, maxResultLen, cutoff)
    ensures multiset(results) <= multiset(pooled)
    ensures forall r :: r in pooled ==> r in results || Conflicts(r, results)
    ensures ConflictFree(results)
    ensures antsLeft == antsAvailable - FirstSteps(results)
    ensures orders == FirstOrders(results, size)
    ensures forall i, j :: 0 <= i < j < |orders| ==> orders[i].pos != orders[j].pos
    ensures targets == [] ==> results == [] && orders == [] && antsLeft == antsAvailable
    ensures Sound(search, antsAvailable, Elements(targets), maxResultLen, cutoff) ==>
      && (forall r :: r in results ==> FirstStep(r) in antsAvailable && LastStep(r) in targets)
      && |antsAvailable| - |antsLeft| == |results|
      && (forall o :: o in orders ==> o.pos in antsAvailable && o.pos !in antsLeft)
  {
    var targetSet := Elements(targets);
    var chosen;
    chosen, visited, pooled := SearchAll(search, antsAvailable, targetSet, maxResultLen, cutoff);
    results := chosen;
    if targets == [] {
      assert forall k :: 0 <= k < |visited| ==> visited[k] in targetSet;
    }

    antsLeft := RemoveChosen(antsAvailable, chosen);
    orders := FirstOrders(chosen, size);
    FirstOrdersDistinctAnts(chosen, size);
    if Sound(search, antsAvailable, Elements(targets), maxResultLen, cutoff) {
      PoolShrinks(antsAvailable, antsLeft, chosen, orders, size);
    }
  }

  /** The removal loop: each chosen result's first step leaves the pool. */
  method RemoveChosen(antsAvailable: set<Position>, chosen: seq<SearchResult>) returns (antsLeft: set<Position>)
    ensures antsLeft == antsAvailable - FirstSteps(chosen)
  {
    antsLeft := antsAvailable;
    var i := 0;
    while i < |chosen|
      invariant 0 <= i <= |chosen|
      invariant antsLeft == antsAvailable - FirstSteps(chosen[..i])
    {
      assert chosen[..i + 1] == chosen[..i] + [chosen[i]];
      antsLeft := antsLeft - {FirstStep(chosen[i])};
      i := i + 1;
    }
    assert chosen[..i] == chosen;
  }

  /** When every chosen result starts at an available ant, the pool loses
      exactly one ant per result, and every ordered ant is one of them. */
  lemma PoolShrinks(antsAvailable: set<Position>, antsLeft: set<Position>, chosen: seq<SearchResult>,
                    orders: seq<Order>, size: Position)
    requires ValidSize(size) && ConflictFree(chosen)
    requires forall r :: r in chosen ==> FirstStep(r) in antsAvailable
    requires antsLeft == antsAvailable - FirstSteps(chosen)
    requires orders == FirstOrders(chosen, size)
    ensures |antsAvailable| - |antsLeft| == |chosen|
    ensures forall o :: o in orders ==> o.pos in antsAvailable && o.pos !in antsLeft
  {
    ConflictFreeCounts(chosen);
    assert FirstSteps(chosen) <= antsAvailable;
    assert antsAvailable == antsLeft + FirstSteps(chosen);
  }

  /** A hill raiser on a map with no enemy hill: nothing is searched, no
      order is given, and the ant stays available. */
  method NoTargetScenario(search: SingleTargetSearch) returns (orders: seq<Order>, antsLeft: set<Position>)
    ensures orders == [] && antsLeft == {Position(1, 3)}
  {
    ghost var results, visited, pooled;
    orders, antsLeft, results, visited, pooled := BestOrdersToTarget(search, [], Position(3, 6), {Position(1, 3)}, 5, 20);
  }
}
