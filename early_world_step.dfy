/**
 * The earlier basic world step (`world_step.rs`): the same order
 * accumulator as the current one, from the iteration in which tiles were
 * only Water or Empty.
 */
module EarlyWorldStep {
  import opened Grid

  /** The tile kinds of the earlier world-step interface. */
  datatype Tile = Empty | Water

  class BasicWorldStep {
    var givenOrders: seq<Order>
    const world: WorldState
    const size: Position

    constructor(world: WorldState, size: Position)
      ensures this.world == world && this.size == size
      ensures givenOrders == []
    {
      this.world := world;
      this.size := size;
      givenOrders := [];
    }

    /** `add_order`: appends the order and changes nothing else. */
    method AddOrder(o: Order)
      modifies this
      ensures givenOrders == old(givenOrders) + [o]
    {
      givenOrders := givenOrders + [o];
    }

    function GetOrders(): seq<Order>
      reads this
    {
      givenOrders
    }

    function Size(): Position
    {
      size
    }

    /** `all_my_ants`: the live ants of player 0, the bot itself. */
    function AllMyAnts(): (r: seq<Position>)
      ensures forall p :: p in r <==> Ant(p, 0) in world.liveAnts
    {
      LiveAntsForPlayer(world.liveAnts, 0)
    }

    /** Every direction is offered, whatever the position. */
    function AvailableDirections(p: Position): (r: seq<Direction>)
      ensures |r| == 4 && forall d :: d in r
      ensures r[0] == North && r[1] == South && r[2] == East && r[3] == West
    {
      AllDirectionsComplete();
      AllDirections
    }

    /** A tile is Water exactly when it is listed as water. */
    function TileAt(p: Position): (r: Tile)
      ensures r == Water <==> p in world.waters
    {
      if p in world.waters then Water else Empty
    }
  }
}
