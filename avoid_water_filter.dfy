/**
 * The water-avoiding world-step decorator (`world_step/avoid_water_filter.rs`).
 * It narrows the directions its delegate offers to those whose target tile
 * is not Water and forwards every other operation unchanged.
 *
 * The delegate is the current basic world step, the arrangement the filter's
 * own tests build.
 */
module AvoidWater {
  import opened Grid
  import opened Sequences
  import opened BasicWorldSteps

  /**
   * The directions of `dirs`, in the same order, whose step from `p` does not
   * land on Water. The position `p` itself is not examined.
   */
  function DryDirections(dirs: seq<Direction>, p: Position, size: Position,
                         tile: Position -> Tile): (r: seq<Direction>)
    requires ValidSize(size)
    ensures IsSubsequence(r, dirs)
    ensures forall d :: d in r <==> d in dirs && tile(Neighbour(p, d, size)) != Water
  {
    if dirs == [] then []
    else
      var rest := DryDirections(dirs[1..], p, size, tile);
      assert dirs == [dirs[0]] + dirs[1..];
      if tile(Neighbour(p, dirs[0], size)) != Water then
        assert ([dirs[0]] + rest)[1..] == rest;
        [dirs[0]] + rest
      else
        SubsequenceCons(rest, dirs[1..], dirs[0]);
        rest
  }

  class AvoidWaterFilter {
    const delegate: BasicWorldStep

    constructor(delegate: BasicWorldStep)
      ensures this.delegate == delegate
    {
      this.delegate := delegate;
    }

    /** `add_order` appends to the delegate's orders and nothing else. */
    method AddOrder(o: Order)
      modifies delegate
      ensures delegate.givenOrders == old(delegate.givenOrders) + [o]
    {
      delegate.AddOrder(o);
    }

    function GetOrders(): seq<Order>
      reads delegate
    {
      delegate.GetOrders()
    }

    function Size(): Position
    {
      delegate.Size()
    }

    function AllMyAnts(): seq<Position>
    {
      delegate.AllMyAnts()
    }

    function TileAt(p: Position): Tile
    {
      delegate.TileAt(p)
    }

    function GetPositions(t: Tile): seq<Position>
    {
      delegate.GetPositions(t)
    }

    /**
     * The delegate's directions, in its order, except those leading onto
     * Water; never more than the delegate offers.
     */
    function AvailableDirections(p: Position): (r: seq<Direction>)
      requires ValidSize(Size())
      ensures IsSubsequence(r, delegate.AvailableDirections(p))
      ensures forall d :: d in r <==> TileAt(Neighbour(p, d, Size())) != Water
    {
      DryDirections(delegate.AvailableDirections(p), p, Size(), q => TileAt(q))
    }
  }

  /** When no step lands on Water, every direction is kept, in order. */
  lemma {:induction false} NoWaterKeepsAll(dirs: seq<Direction>, p: Position, size: Position,
                                           tile: Position -> Tile)
    requires ValidSize(size)
    requires forall d :: d in dirs ==> tile(Neighbour(p, d, size)) != Water
    ensures DryDirections(dirs, p, size, tile) == dirs
  {
    if dirs != [] {
      assert dirs[0] in dirs;
      assert forall d :: d in dirs[1..] ==> d in dirs;
      NoWaterKeepsAll(dirs[1..], p, size, tile);
      assert dirs == [dirs[0]] + dirs[1..];
    }
  }

  /** Water only diagonally next to the ant blocks nothing. */
  lemma DiagonalWaterDoesNotBlock(f: AvoidWaterFilter)
    requires f.Size() == Position(3, 3)
    requires f.delegate.world.waters ==
      [Position(0, 0), Position(0, 2), Position(2, 0), Position(2, 2)]
    requires f.delegate.world.foods == [Position(1, 0)]
    ensures f.AvailableDirections(Position(1, 1)) == [North, South, East, West]
  {
    var size := Position(3, 3);
    var p := Position(1, 1);
    forall d | d in AllDirections
      ensures f.TileAt(Neighbour(p, d, size)) != Water
    {
      assert Neighbour(p, d, size) in {Position(0, 1), Position(2, 1), Position(1, 2), Position(1, 0)};
    }
    NoWaterKeepsAll(AllDirections, p, size, q => f.TileAt(q));
  }

  /** An ant walled in by water on three sides may only go East. */
  lemma WalledInGoesEast(f: AvoidWaterFilter)
    requires f.Size() == Position(3, 3)
    requires f.delegate.world.waters ==
      [Position(0, 0), Position(0, 1), Position(0, 2), Position(1, 0),
       Position(2, 0), Position(2, 1), Position(2, 2)]
    requires f.delegate.world.foods == []
    ensures f.AvailableDirections(Position(1, 1)) == [East]
  {
    var size := Position(3, 3);
    var p := Position(1, 1);
    var tile := q => f.TileAt(q);
    assert Neighbour(p, West, size) == Position(1, 0);
    assert Neighbour(p, East, size) == Position(1, 2);
    assert Neighbour(p, South, size) == Position(2, 1);
    assert Neighbour(p, North, size) == Position(0, 1);
    assert AllDirections[1..] == [South, East, West];
    assert [South, East, West][1..] == [East, West];
    assert [East, West][1..] == [West];
    assert [West][1..] == [];
    assert DryDirections([West], p, size, tile) == [];
    assert DryDirections([East, West], p, size, tile) == [East];
    assert DryDirections([South, East, West], p, size, tile) == [East];
  }
}
