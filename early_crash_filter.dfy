/**
 * The earlier crash filter (`ant_crash_filter.rs`): a first-come
 * reservation filter. The bot's ants that received no order reserve their
 * own cells first; then the submitted orders are read in submission order
 * and one is kept exactly when its target cell is not reserved yet, after
 * which its target is reserved.
 *
 * Its `target_position` wraps North and West around the grid but lets South
 * and East step past the last row or column. The filter is modelled both as
 * written (`TargetPositionAsWritten`) and with the wrap-around step the
 * later world-step version uses (`Wrapping`), which `GetOrders` uses.
 */
module EarlyCrashFilter {
  import opened Grid
  import opened Sequences

  /** `target_position` as written: South and East do not wrap. */
  function TargetPositionAsWritten(o: Order, size: Position): (r: Position)
    requires ValidSize(size)
    ensures InGrid(o.pos, size) ==>
      (r == TargetPos(o, size) <==>
        !(o.dir == South && o.pos.row + 1 == size.row) &&
        !(o.dir == East && o.pos.col + 1 == size.col))
    ensures o.dir in {South, East} && InGrid(o.pos, size) && r != TargetPos(o, size) ==>
      !InGrid(r, size)
  {
    NeighbourAtEdge(o.pos, o.dir, size);
    match o.dir
    case South => Position(o.pos.row + 1, o.pos.col)
    case North => Position((o.pos.row + size.row - 1) % size.row, o.pos.col)
    case West => Position(o.pos.row, (o.pos.col + size.col - 1) % size.col)
    case East => Position(o.pos.row, o.pos.col + 1)
  }

  /** Which target function the filter reserves with. */
  datatype Targeting = AsWritten | Wrapping

  function TargetOf(o: Order, size: Position, t: Targeting): Position
    requires ValidSize(size)
  {
    match t
    case AsWritten => TargetPositionAsWritten(o, size)
    case Wrapping => TargetPos(o, size)
  }

  /** The orders kept by the reservation scan, given the reserved cells. */
  function KeptOrders(orders: seq<Order>, taken: set<Position>, size: Position, t: Targeting)
    : seq<Order>
    requires ValidSize(size)
    decreases |orders|
  {
    if orders == [] then []
    else
      var target := TargetOf(orders[0], size, t);
      if target in taken then KeptOrders(orders[1..], taken, size, t)
      else [orders[0]] + KeptOrders(orders[1..], taken + {target}, size, t)
  }

  /**
   * The scan keeps a subsequence of the orders, none of which targets a
   * reserved cell and no two of which share a target; and it is maximal:
   * every order's target ends up reserved or claimed by a kept order.
   */
  lemma {:induction false} KeptOrdersAreCollisionFree(orders: seq<Order>, taken: set<Position>,
                                                      size: Position, t: Targeting)
    requires ValidSize(size)
    ensures var r := KeptOrders(orders, taken, size, t);
      && IsSubsequence(r, orders)
      && (forall o :: o in r ==> TargetOf(o, size, t) !in taken)
      && (forall i, j :: 0 <= i < j < |r| ==> TargetOf(r[i], size, t) != TargetOf(r[j], size, t))
      && (forall o :: o in orders ==>
            TargetOf(o, size, t) in taken || exists k :: k in r && TargetOf(k, size, t) == TargetOf(o, size, t))
    decreases |orders|
  {
    if orders != [] {
      var o0 := orders[0];
      var target := TargetOf(o0, size, t);
      assert orders == [o0] + orders[1..];
      if target in taken {
        KeptOrdersAreCollisionFree(orders[1..], taken, size, t);
        var rest := KeptOrders(orders[1..], taken, size, t);
        SubsequenceCons(rest, orders[1..], o0);
      } else {
        KeptOrdersAreCollisionFree(orders[1..], taken + {target}, size, t);
        var rest := KeptOrders(orders[1..], taken + {target}, size, t);
        var r := [o0] + rest;
        assert r[1..] == rest;
        assert forall i :: 1 <= i < |r| ==> r[i] == rest[i - 1];
        assert o0 in r;
      }
    }
  }

  /** The bot's ants that received no order, in their listed order. */
  function Stationary(ants: seq<Position>, orders: seq<Order>): (r: seq<Position>)
    ensures forall p :: p in r <==> p in ants && forall o :: o in orders ==> o.pos != p
  {
    if ants == [] then []
    else
      var rest := Stationary(ants[1..], orders);
      assert ants == [ants[0]] + ants[1..];
      if forall o :: o in orders ==> o.pos != ants[0] then [ants[0]] + rest else rest
  }

  class AntCrashFilter {
    var givenOrders: seq<Order>
    const world: WorldState
    const size: Position

    constructor(world: WorldState, size: Position)
      ensures this.world == world && this.size == size && givenOrders == []
    {
      this.world := world;
      this.size := size;
      givenOrders := [];
    }

    /** `add` appends exactly one order and changes nothing else. */
    method Add(o: Order)
      modifies this
      ensures givenOrders == old(givenOrders) + [o]
    {
      givenOrders := givenOrders + [o];
    }

    /** The bot's ants, player 0. */
    function AllMyAnts(): seq<Position>
    {
      LiveAntsForPlayer(world.liveAnts, 0)
    }

    /**
     * `get_orders`, reserving with the wrap-around target: ants without an
     * order reserve their cells, then every order into an unreserved cell is
     * kept and reserves it. Sources are not checked.
     */
    method GetOrders() returns (kept: seq<Order>)
      requires ValidSize(size)
      ensures kept == KeptOrders(givenOrders, Elements(Stationary(AllMyAnts(), givenOrders)),
                                 size, Wrapping)
      ensures IsSubsequence(kept, givenOrders)
      ensures forall o :: o in kept ==> TargetPos(o, size) !in Stationary(AllMyAnts(), givenOrders)
      ensures forall i, j :: 0 <= i < j < |kept| ==> TargetPos(kept[i], size) != TargetPos(kept[j], size)
    {
      var ants := AllMyAnts();
      var stationary := StationaryAnts(ants, givenOrders);
      var taken := Reserve(stationary);
      kept := Scan(givenOrders, taken, size);
      KeptOrdersAreCollisionFree(givenOrders, taken, size, Wrapping);
    }
  }

  /** The cells the orders start from, in submission order. */
  method Sources(orders: seq<Order>) returns (ordered: seq<Position>)
    ensures |ordered| == |orders|
    ensures forall k :: 0 <= k < |orders| ==> ordered[k] == orders[k].pos
  {
    ordered := [];
    for i := 0 to |orders|
      invariant |ordered| == i
      invariant forall k :: 0 <= k < i ==> ordered[k] == orders[k].pos
    {
      ordered := ordered + [orders[i].pos];
    }
  }

  /** The ants whose cell no order starts from, in their listed order. */
  method StationaryAnts(ants: seq<Position>, orders: seq<Order>) returns (stationary: seq<Position>)
    ensures stationary == Stationary(ants, orders)
  {
    var ordered := Sources(orders);
    stationary := [];
    for i := 0 to |ants|
      invariant stationary == Stationary(ants[..i], orders)
    {
      StationaryAppend(ants[..i], ants[i], orders);
      assert ants[..i + 1] == ants[..i] + [ants[i]];
      if ants[i] !in ordered {
        assert forall o :: o in orders ==> o.pos != ants[i] by {
          forall o | o in orders
            ensures o.pos != ants[i]
          {
            var k :| 0 <= k < |orders| && orders[k] == o;
            assert ordered[k] == o.pos;
          }
        }
        stationary := stationary + [ants[i]];
      } else {
        var k :| 0 <= k < |ordered| && ordered[k] == ants[i];
        assert orders[k] in orders;
      }
    }
    assert ants[..|ants|] == ants;
  }

  /** The reserved cells: those of the stationary ants. */
  method Reserve(stationary: seq<Position>) returns (taken: set<Position>)
    ensures taken == Elements(stationary)
  {
    taken := {};
    for i := 0 to |stationary|
      invariant taken == Elements(stationary[..i])
    {
      assert stationary[..i + 1] == stationary[..i] + [stationary[i]];
      ElementsAppend(stationary[..i], stationary[i]);
      taken := taken + {stationary[i]};
    }
    assert stationary[..|stationary|] == stationary;
  }

  /** The reservation scan over the submitted orders. */
  method Scan(orders: seq<Order>, taken0: set<Position>, size: Position) returns (kept: seq<Order>)
    requires ValidSize(size)
    ensures kept == KeptOrders(orders, taken0, size, Wrapping)
  {
    var taken := taken0;
    kept := [];
    for i := 0 to |orders|
      invariant kept + KeptOrders(orders[i..], taken, size, Wrapping) == KeptOrders(orders, taken0, size, Wrapping)
    {
      var o := orders[i];
      var target := TargetPos(o, size);
      assert orders[i..][1..] == orders[i + 1..];
      if target !in taken {
        taken := taken + {target};
        kept := kept + [o];
      }
    }
    assert orders[|orders|..] == [];
  }

  lemma StationaryAppend(ants: seq<Position>, a: Position, orders: seq<Order>)
    ensures Stationary(ants + [a], orders) ==
      Stationary(ants, orders) + (if forall o :: o in orders ==> o.pos != a then [a] else [])
    decreases |ants|
  {
    if ants != [] {
      assert (ants + [a])[1..] == ants[1..] + [a];
      StationaryAppend(ants[1..], a, orders);
    } else {
      assert ([a])[1..] == [];
    }
  }

  // ---------------------------------------------------------------------
  // The wrap-around defect of `target_position`

  /**
   * As written, an ant on the last row ordered South is kept even though it
   * walks, around the edge, into the cell of an ant that stays put: the
   * reservation uses the off-grid cell (2, 0) instead of (0, 0). Reserving
   * with the wrap-around target drops the order.
   */
  lemma AsWrittenMissesWrapAroundCollision()
    ensures var given := [Order(Position(1, 0), South)];
      var taken := Elements(Stationary([Position(0, 0), Position(1, 0)], given));
      && KeptOrders(given, taken, Position(2, 2), AsWritten) == given
      && TargetPos(given[0], Position(2, 2)) == Position(0, 0)
      && Position(0, 0) in taken
      && KeptOrders(given, taken, Position(2, 2), Wrapping) == []
  {
    var given := [Order(Position(1, 0), South)];
    var ants := [Position(0, 0), Position(1, 0)];
    assert Stationary(ants[1..], given) == [] by {
      assert ants[1..][1..] == [];
    }
    assert Stationary(ants, given) == [Position(0, 0)];
    assert Elements([Position(0, 0)]) == {Position(0, 0)};
    assert given[1..] == [];
  }

  // ---------------------------------------------------------------------
  // The filter's unit tests, replayed on the specification

  /** Two ants ordered into the same cell: the earlier order wins. */
  lemma EarlierOrderWins()
    ensures var ants := [Position(0, 0), Position(1, 1)];
      var g1 := [Order(Position(0, 0), South), Order(Position(1, 1), West)];
      var g2 := [Order(Position(1, 1), West), Order(Position(0, 0), South)];
      && KeptOrders(g1, Elements(Stationary(ants, g1)), Position(2, 2), Wrapping) == [g1[0]]
      && KeptOrders(g2, Elements(Stationary(ants, g2)), Position(2, 2), Wrapping) == [g2[0]]
  {
    var ants := [Position(0, 0), Position(1, 1)];
    var g1 := [Order(Position(0, 0), South), Order(Position(1, 1), West)];
    var g2 := [Order(Position(1, 1), West), Order(Position(0, 0), South)];
    assert ants[1..][1..] == [];
    assert Stationary(ants, g1) == [] && Stationary(ants, g2) == [];
    assert Elements<Position>([]) == {};
    assert g1[1..][1..] == [] && g2[1..][1..] == [];
  }

  /** An ant steps into the cell the ant below it leaves. */
  lemma MoveOutOfTheWay()
    ensures var ants := [Position(0, 0), Position(1, 0)];
      var given := [Order(Position(0, 0), South), Order(Position(1, 0), East)];
      KeptOrders(given, Elements(Stationary(ants, given)), Position(2, 2), Wrapping) == given
  {
    var ants := [Position(0, 0), Position(1, 0)];
    var given := [Order(Position(0, 0), South), Order(Position(1, 0), East)];
    assert ants[1..][1..] == [];
    assert Stationary(ants, given) == [];
    assert Elements<Position>([]) == {};
    assert given[1..][1..] == [];
  }

  /** An ant without an order keeps its cell. */
  lemma StationaryAntKeepsItsCell()
    ensures var ants := [Position(0, 0), Position(1, 0)];
      var given := [Order(Position(0, 0), South)];
      KeptOrders(given, Elements(Stationary(ants, given)), Position(2, 2), Wrapping) == []
  {
    var ants := [Position(0, 0), Position(1, 0)];
    var given := [Order(Position(0, 0), South)];
    assert ants[1..][1..] == [];
    assert Stationary(ants[1..], given) == [Position(1, 0)];
    assert Stationary(ants, given) == [Position(1, 0)];
    assert Elements([Position(1, 0)]) == {Position(1, 0)};
    assert given[1..] == [];
  }
}
