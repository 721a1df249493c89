/**
 * The current basic world step (`world_step/basic_world_step.rs`): the
 * innermost layer of a turn's state. It accumulates the orders given this
 * turn, in submission order, and answers questions about the world from the
 * world state it was built with. Tiles are classified as Food, Water or
 * Empty.
 */
module BasicWorldSteps {
  import opened Grid

  /** The tile kinds of the current world-step interface. */
  datatype Tile = Empty | Water | Food

  class BasicWorldStep {
    var givenOrders: seq<Order>
    const world: WorldState
    const size: Position

    constructor(world: WorldState, size: Position)
      ensures this.world == world && this.size == size
      ensures givenOrders == []
    {
      this.world := world;
      this.size := size;
      givenOrders := [];
    }

    /** `add_order`: appends the order and changes nothing else. */
    method AddOrder(o: Order)
      modifies this
      ensures givenOrders == old(givenOrders) + [o]
    {
      givenOrders := givenOrders + [o];
    }

    function GetOrders(): seq<Order>
      reads this
    {
      givenOrders
    }

    function Size(): Position
    {
      size
    }

    /** `all_my_ants`: the live ants of player 0, the bot itself. */
    function AllMyAnts(): (r: seq<Position>)
      ensures forall p :: p in r <==> Ant(p, 0) in world.liveAnts
    {
      LiveAntsForPlayer(world.liveAnts, 0)
    }

    /** Every direction is offered, whatever the position. */
    function AvailableDirections(p: Position): (r: seq<Direction>)
      ensures |r| == 4 && forall d :: d in r
      ensures r[0] == North && r[1] == South && r[2] == East && r[3] == West
    {
      AllDirectionsComplete();
      AllDirections
    }

    /** Food takes precedence over Water; anything else is Empty. */
    function TileAt(p: Position): (r: Tile)
      ensures r == Food <==> p in world.foods
      ensures r == Water <==> p !in world.foods && p in world.waters
      ensures r == Empty <==> p !in world.foods && p !in world.waters
    {
      if p in world.foods then Food
      else if p in world.waters then Water
      else Empty
    }

    /** The food list or the water list; no other kind is tracked. */
    function GetPositions(t: Tile): (r: seq<Position>)
      ensures t == Food ==> r == world.foods
      ensures t == Water ==> r == world.waters
      ensures t == Empty ==> r == []
    {
      match t
      case Food => world.foods
      case Water => world.waters
      case _ => []
    }
  }

  /**
   * Orders added one after another come back from `get_orders` exactly as
   * submitted, in submission order.
   */
  method SubmissionOrder(world: WorldState, size: Position, orders: seq<Order>)
    returns (got: seq<Order>)
    ensures got == orders
  {
    var step := new BasicWorldStep(world, size);
    var i := 0;
    while i < |orders|
      invariant 0 <= i <= |orders|
      invariant step.givenOrders == orders[..i]
    {
      step.AddOrder(orders[i]);
      assert orders[..i + 1] == orders[..i] + [orders[i]];
      i := i + 1;
    }
    assert orders[..i] == orders;
    got := step.GetOrders();
  }
}
