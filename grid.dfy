/**
 * The wrap-around grid every part of the bot works on, as far as the bot
 * relies on it: positions, the four compass directions, single-step move
 * orders and the facts a world state holds per kind.
 *
 * These types come from the Ants AI Challenge api crate, which is not part
 * of this model; they are given the minimal behaviour the bot's own code and
 * tests rely on: one step moves to the neighbouring cell and wraps around
 * every edge of the grid, and reversing an order stands on its target and
 * faces back.
 */
module Grid {

  datatype Position = Position(row: nat, col: nat)

  datatype Direction = North | South | East | West

  /** A move order: the ant at `pos` steps one cell towards `dir`. */
  datatype Order = Order(pos: Position, dir: Direction)

  /** The four directions in the order the world steps list them. */
  const AllDirections: seq<Direction> := [North, South, East, West]

  /** Every direction is listed. */
  lemma AllDirectionsComplete()
    ensures forall d: Direction :: d in AllDirections
  {
    forall d: Direction
      ensures d in AllDirections
    {
      match d
      case North => assert AllDirections[0] == d;
      case South => assert AllDirections[1] == d;
      case East => assert AllDirections[2] == d;
      case West => assert AllDirections[3] == d;
    }
  }

  /** A world size is usable for wrap-around when neither side is empty. */
  predicate ValidSize(size: Position)
  {
    size.row > 0 && size.col > 0
  }

  predicate InGrid(p: Position, size: Position)
  {
    p.row < size.row && p.col < size.col
  }

  function Opposite(d: Direction): Direction
  {
    match d
    case North => South
    case South => North
    case East => West
    case West => East
  }

  /** The cell one step from `p` towards `dir`, wrapping around the edges. */
  function Neighbour(p: Position, dir: Direction, size: Position): (r: Position)
    requires ValidSize(size)
    ensures InGrid(p, size) ==> InGrid(r, size)
    ensures dir in {North, South} ==> r.col == p.col
    ensures dir in {East, West} ==> r.row == p.row
  {
    match dir
    case North => Position((p.row + size.row - 1) % size.row, p.col)
    case South => Position((p.row + 1) % size.row, p.col)
    case East => Position(p.row, (p.col + 1) % size.col)
    case West => Position(p.row, (p.col + size.col - 1) % size.col)
  }

  /** `target_pos`: the cell an order moves its ant to. */
  function TargetPos(o: Order, size: Position): Position
    requires ValidSize(size)
  {
    Neighbour(o.pos, o.dir, size)
  }

  /** A step South or East moves one cell on, except from the last row or
      column, where it wraps to the first. */
  lemma NeighbourAtEdge(p: Position, dir: Direction, size: Position)
    requires ValidSize(size)
    ensures dir == South && p.row + 1 < size.row ==> Neighbour(p, dir, size).row == p.row + 1
    ensures dir == South && p.row + 1 == size.row ==> Neighbour(p, dir, size).row == 0
    ensures dir == East && p.col + 1 < size.col ==> Neighbour(p, dir, size).col == p.col + 1
    ensures dir == East && p.col + 1 == size.col ==> Neighbour(p, dir, size).col == 0
  {
    WrapOnce(p.row + 1, size.row);
    WrapOnce(p.col + 1, size.col);
  }

  /** `reverse`: the order standing on the target and facing back. */
  function Reverse(o: Order, size: Position): (r: Order)
    requires ValidSize(size)
    ensures r.pos == TargetPos(o, size)
    ensures r.dir == Opposite(o.dir) && Opposite(r.dir) == o.dir
  {
    Order(TargetPos(o, size), Opposite(o.dir))
  }

  /** Stepping back the opposite way returns to an in-grid start cell. */
  lemma StepBack(p: Position, dir: Direction, size: Position)
    requires ValidSize(size) && InGrid(p, size)
    ensures Neighbour(Neighbour(p, dir, size), Opposite(dir), size) == p
  {
    match dir
    case North =>
      WrapDec(p.row, size.row);
      WrapInc(Neighbour(p, dir, size).row, size.row);
    case South =>
      WrapInc(p.row, size.row);
      WrapDec(Neighbour(p, dir, size).row, size.row);
    case East =>
      WrapInc(p.col, size.col);
      WrapDec(Neighbour(p, dir, size).col, size.col);
    case West =>
      WrapDec(p.col, size.col);
      WrapInc(Neighbour(p, dir, size).col, size.col);
  }

  /** Reversing an order twice gives the order back (for in-grid sources),
      and the reversed order leads back to where the original started. */
  lemma ReverseInvolution(o: Order, size: Position)
    requires ValidSize(size) && InGrid(o.pos, size)
    ensures TargetPos(Reverse(o, size), size) == o.pos
    ensures Reverse(Reverse(o, size), size) == o
  {
    StepBack(o.pos, o.dir, size);
  }

  lemma WrapDec(x: nat, n: nat)
    requires x < n
    ensures (x + n - 1) % n == if x == 0 then n - 1 else x - 1
  {
  }

  lemma WrapInc(x: nat, n: nat)
    requires x < n
    ensures (x + 1) % n == if x + 1 == n then 0 else x + 1
  {
  }

  /** Euclidean division has one quotient and one remainder. */
  lemma DivModUnique(a: int, b: int, q: int, r: int)
    requires b > 0 && 0 <= r < b && a == q * b + r
    ensures a / b == q && a % b == r
  {
    var q0, r0 := a / b, a % b;
    assert a == q0 * b + r0;
    if q0 > q {
      assert (q0 - q) * b == r - r0;
      MulAtLeast(q0 - q, b);
    } else if q0 < q {
      assert (q - q0) * b == r0 - r;
      MulAtLeast(q - q0, b);
    }
  }

  lemma MulAtLeast(k: int, b: int)
    requires k >= 1 && b > 0
    ensures k * b >= b
  {
    assert k * b == (k - 1) * b + b;
  }

  /** A coordinate at most one lap outside `[0, n)` is wrapped by one lap. */
  lemma WrapOnce(v: int, n: int)
    requires n > 0
    ensures 0 <= v % n < n
    ensures 0 <= v < n ==> v % n == v
    ensures -n <= v < 0 ==> v % n == v + n
    ensures n <= v < 2 * n ==> v % n == v - n
  {
    if 0 <= v < n {
      DivModUnique(v, n, 0, v);
    } else if -n <= v < 0 {
      DivModUnique(v, n, -1, v + n);
    } else if n <= v < 2 * n {
      DivModUnique(v, n, 1, v - n);
    }
  }

  /** `as_size_for_pos`: signed coordinates wrapped into the grid. */
  function AsSizeForPos(size: Position, row: int, col: int): (r: Position)
    requires ValidSize(size)
    ensures InGrid(r, size)
    ensures 0 <= row < size.row ==> r.row == row
    ensures 0 <= col < size.col ==> r.col == col
    ensures row < 0 <= row + size.row ==> r.row == row + size.row
    ensures col < 0 <= col + size.col ==> r.col == col + size.col
    ensures size.row <= row < 2 * size.row ==> r.row == row - size.row
    ensures size.col <= col < 2 * size.col ==> r.col == col - size.col
  {
    WrapOnce(row, size.row);
    WrapOnce(col, size.col);
    Position(row % size.row, col % size.col)
  }

  datatype Ant = Ant(pos: Position, player: nat)

  datatype Hill = Hill(pos: Position, player: nat)

  /** A world state: one list per kind of fact, each in insertion order. */
  datatype WorldState = WorldState(
    liveAnts: seq<Ant>,
    hills: seq<Hill>,
    foods: seq<Position>,
    waters: seq<Position>)

  const EmptyWorld := WorldState([], [], [], [])

  /** The positions of one player's live ants, in the order they were added. */
  function LiveAntsForPlayer(ants: seq<Ant>, player: nat): (r: seq<Position>)
    ensures forall p :: p in r <==> Ant(p, player) in ants
    ensures |r| <= |ants|
  {
    if ants == [] then []
    else
      var rest := LiveAntsForPlayer(ants[1..], player);
      assert ants == [ants[0]] + ants[1..];
      if ants[0].player == player then [ants[0].pos] + rest else rest
  }
}
