/**
 * The toroidal Manhattan distance (`strategy/search/manhattan_filter.rs`) and
 * the search decorator built on it: before handing the sources to an inner
 * search, it drops every source farther than the cutoff from the
 * destination, since no path of at most `cutoff` steps can reach it.
 *
 * `Manhattan` is the distance as an unbounded integer; the source casts both
 * the distance and the cutoff to 16-bit unsigned values before comparing
 * them, which `Distance16` and `Limit16` model.
 */
module ManhattanFilter {
  import opened Grid
  import Bfs

  /** The distance along one axis of length `n`: the shorter of the direct
      way and the way around the edge. */
  function AxisDistance(x: nat, y: nat, n: nat): int
  {
    var diff := if x >= y then x - y else y - x;
    if diff <= n - diff then diff else n - diff
  }

  /** `manhattan`: the sum of the two axis distances. */
  function Manhattan(a: Position, b: Position, size: Position): int
  {
    AxisDistance(a.row, b.row, size.row) + AxisDistance(a.col, b.col, size.col)
  }

  /** `manhattan` is symmetric. */
  lemma ManhattanSymmetric(a: Position, b: Position, size: Position)
    ensures Manhattan(a, b, size) == Manhattan(b, a, size)
  {
  }

  /** For in-grid points each axis term lies between 0 and half the axis. */
  lemma ManhattanBounds(a: Position, b: Position, size: Position)
    requires InGrid(a, size) && InGrid(b, size)
    ensures 0 <= AxisDistance(a.row, b.row, size.row) <= size.row / 2
    ensures 0 <= AxisDistance(a.col, b.col, size.col) <= size.col / 2
    ensures 0 <= Manhattan(a, b, size) <= size.row / 2 + size.col / 2
  {
  }

  /** A point is at distance 0 from itself, and, within the grid, only from itself. */
  lemma ManhattanZero(a: Position, b: Position, size: Position)
    requires InGrid(a, size) && InGrid(b, size)
    ensures Manhattan(a, a, size) == 0
    ensures Manhattan(a, b, size) == 0 <==> a == b
  {
  }

  /** One step along an axis changes the axis distance by at most one. */
  lemma AxisStep(x: nat, y: nat, n: nat)
    requires x < n && y < n
    ensures AxisDistance((x + 1) % n, y, n) <= AxisDistance(x, y, n) + 1
    ensures AxisDistance((x + n - 1) % n, y, n) <= AxisDistance(x, y, n) + 1
  {
    WrapInc(x, n);
    WrapDec(x, n);
  }

  /** One step on the grid changes the distance to a fixed cell by at most one. */
  lemma ManhattanStep(p: Position, d: Direction, to: Position, size: Position)
    requires ValidSize(size) && InGrid(p, size) && InGrid(to, size)
    ensures Manhattan(Neighbour(p, d, size), to, size) <= Manhattan(p, to, size) + 1
  {
    AxisStep(p.row, to.row, size.row);
    AxisStep(p.col, to.col, size.col);
  }

  /** The sources the filter keeps: those within `cutoff` of `to`. */
  function FilteredSources(from: set<Position>, to: Position, size: Position, cutoff: nat)
    : (r: set<Position>)
    ensures r <= from
    ensures forall p :: p in r <==> p in from && Manhattan(p, to, size) <= cutoff
  {
    set p | p in from && Manhattan(p, to, size) <= cutoff
  }

  /** A larger cutoff keeps at least as many sources, and a cutoff of half
      the grid in each axis keeps every in-grid source. */
  lemma FilterMonotone(from: set<Position>, to: Position, size: Position, c1: nat, c2: nat)
    requires c1 <= c2
    ensures FilteredSources(from, to, size, c1) <= FilteredSources(from, to, size, c2)
    ensures (InGrid(to, size) && (forall p :: p in from ==> InGrid(p, size)) &&
             size.row / 2 + size.col / 2 <= c1) ==> FilteredSources(from, to, size, c1) == from
  {
    if InGrid(to, size) && (forall p :: p in from ==> InGrid(p, size)) &&
       size.row / 2 + size.col / 2 <= c1 {
      forall p | p in from
        ensures Manhattan(p, to, size) <= c1
      {
        ManhattanBounds(p, to, size);
      }
    }
  }

  /** `manhattan`'s `as u16`: the distance truncated to 16 bits (a negative
      `i64` wraps as in two's complement). */
  function Distance16(a: Position, b: Position, size: Position): (r: int)
    ensures 0 <= r < 0x1_0000
    ensures 0 <= Manhattan(a, b, size) < 0x1_0000 ==> r == Manhattan(a, b, size)
  {
    Manhattan(a, b, size) % 0x1_0000
  }

  /** `cutoff_len as u16`: the cutoff truncated to 16 bits. */
  function Limit16(cutoff: nat): (r: nat)
    ensures r < 0x1_0000
    ensures cutoff < 0x1_0000 ==> r == cutoff
  {
    cutoff % 0x1_0000
  }

  /** The sources the filter keeps as written: those whose 16-bit distance to
      `to` is at most the 16-bit cutoff. */
  function KeptSources(from: set<Position>, to: Position, size: Position, cutoff: nat)
    : (r: set<Position>)
    ensures r <= from
    ensures forall p :: p in r <==> p in from && Distance16(p, to, size) <= Limit16(cutoff)
  {
    set p | p in from && Distance16(p, to, size) <= Limit16(cutoff)
  }

  /** The conditions under which neither cast changes a value: in-grid
      positions, axes shorter than 65536 cells and a cutoff below 65536. */
  predicate SixteenBitsSuffice(from: set<Position>, to: Position, size: Position, cutoff: nat)
  {
    && InGrid(to, size) && (forall p :: p in from ==> InGrid(p, size))
    && size.row < 0x1_0000 && size.col < 0x1_0000 && cutoff < 0x1_0000
  }

  /** On such inputs the truncating comparison keeps exactly the sources
      within the cutoff. */
  lemma KeptAgreesWithFiltered(from: set<Position>, to: Position, size: Position, cutoff: nat)
    ensures SixteenBitsSuffice(from, to, size, cutoff) ==>
      KeptSources(from, to, size, cutoff) == FilteredSources(from, to, size, cutoff)
  {
    if SixteenBitsSuffice(from, to, size, cutoff) {
      forall p | p in from
        ensures Distance16(p, to, size) == Manhattan(p, to, size)
      {
        ManhattanBounds(p, to, size);
      }
    }
  }

  /** Outside them the casts change the answer: a cutoff of 65536 becomes 0,
      so only the destination itself is kept, where the exact comparison
      keeps every in-grid source. */
  lemma CutoffWrapsToZero(from: set<Position>, to: Position, size: Position)
    requires InGrid(to, size) && (forall p :: p in from ==> InGrid(p, size))
    requires size.row < 0x1_0000 && size.col < 0x1_0000
    ensures KeptSources(from, to, size, 0x1_0000) == from * {to}
    ensures FilteredSources(from, to, size, 0x1_0000) == from
  {
    forall p | p in from
      ensures Distance16(p, to, size) == Manhattan(p, to, size)
      ensures Manhattan(p, to, size) == 0 <==> p == to
    {
      ManhattanBounds(p, to, size);
      ManhattanZero(p, to, size);
    }
    FilterMonotone(from, to, size, 0x1_0000, 0x1_0000);
  }

  /** `ManhattanFilter::search`: the inner search receives the kept sources
      and the other arguments unchanged, and its result is returned as is.
      When the casts change nothing, the kept sources are exactly those
      within the cutoff. */
  function Search(inner: (set<Position>, Position, nat, nat) -> seq<Order>, size: Position,
                  from: set<Position>, to: Position, maxResultLen: nat, cutoff: nat)
    : (r: seq<Order>)
    ensures exists kept ::
      && kept <= from
      && r == inner(kept, to, maxResultLen, cutoff)
      && forall p :: p in kept <==> p in from && Distance16(p, to, size) <= Limit16(cutoff)
    ensures SixteenBitsSuffice(from, to, size, cutoff) ==>
      r == inner(FilteredSources(from, to, size, cutoff), to, maxResultLen, cutoff)
  {
    KeptAgreesWithFiltered(from, to, size, cutoff);
    inner(KeptSources(from, to, size, cutoff), to, maxResultLen, cutoff)
  }

  /**
   * The filter loses nothing the breadth-first search could find: every cell
   * the search reaches within `k` rounds of an in-grid destination is at most
   * `k` away, whatever directions the world offers.
   */
  lemma {:induction false} LayerWithinDistance(k: nat, to: Position,
                                               avail: Position -> seq<Direction>, size: Position)
    requires ValidSize(size) && InGrid(to, size)
    ensures forall p :: p in Bfs.Layer(k, to, avail, size) ==> Manhattan(p, to, size) <= k
  {
    if k == 0 {
      assert Bfs.Layer(0, to, avail, size) == {to};
    } else {
      LayerWithinDistance(k - 1, to, avail, size);
      Bfs.LayersInGrid(k - 1, to, avail, size);
      Bfs.LayerIsFresh(k, to, avail, size);
      FringeWithinDistance(Bfs.Layer(k - 1, to, avail, size), Bfs.Layer(k, to, avail, size), k, to, avail, size);
    }
  }

  /** Cells one offered step from cells at most `k - 1` away are at most `k` away. */
  lemma FringeWithinDistance(previous: set<Position>, current: set<Position>, k: nat, to: Position,
                             avail: Position -> seq<Direction>, size: Position)
    requires ValidSize(size) && InGrid(to, size) && k > 0
    requires forall p :: p in previous ==> InGrid(p, size) && Manhattan(p, to, size) <= k - 1
    requires forall q :: q in current ==>
      exists p, d :: p in previous && d in avail(p) && Neighbour(p, d, size) == q
    ensures forall q :: q in current ==> Manhattan(q, to, size) <= k
  {
    forall q | q in current
      ensures Manhattan(q, to, size) <= k
    {
      var p, d :| p in previous && d in avail(p) && Neighbour(p, d, size) == q;
      ManhattanStep(p, d, to, size);
    }
  }

  /** Hence, within the cutoff, the filtered sources meet every layer of the
      search exactly where the unfiltered ones do. */
  lemma FilterKeepsReachableSources(from: set<Position>, k: nat, cutoff: nat, to: Position,
                                    avail: Position -> seq<Direction>, size: Position)
    requires ValidSize(size) && InGrid(to, size) && k <= cutoff
    ensures FilteredSources(from, to, size, cutoff) * Bfs.Layer(k, to, avail, size) ==
            from * Bfs.Layer(k, to, avail, size)
  {
    LayerWithinDistance(k, to, avail, size);
  }

  // ---------------------------------------------------------------------
  // The filter's unit test: destination (0, 0) on a 4 x 8 map

  const TestSize := Position(4, 8)

  const TestSources := {Position(0, 3), Position(1, 3), Position(1, 7), Position(3, 0)}

  /** The distances of the four sources; (3, 0) is one step away around the
      top edge and (1, 7) two steps away around the left edge. */
  lemma TestDistances()
    ensures Manhattan(Position(3, 0), Position(0, 0), TestSize) == 1
    ensures Manhattan(Position(1, 7), Position(0, 0), TestSize) == 2
    ensures Manhattan(Position(0, 3), Position(0, 0), TestSize) == 3
    ensures Manhattan(Position(1, 3), Position(0, 0), TestSize) == 4
  {
  }

  /** Cutoffs 0 to 4 admit growing sets of sources. */
  lemma TestFilteredSources()
    ensures FilteredSources(TestSources, Position(0, 0), TestSize, 0) == {}
    ensures FilteredSources(TestSources, Position(0, 0), TestSize, 1) == {Position(3, 0)}
    ensures FilteredSources(TestSources, Position(0, 0), TestSize, 2) == {Position(1, 7), Position(3, 0)}
    ensures FilteredSources(TestSources, Position(0, 0), TestSize, 3) ==
            {Position(0, 3), Position(1, 7), Position(3, 0)}
    ensures FilteredSources(TestSources, Position(0, 0), TestSize, 4) == TestSources
  {
    TestDistances();
  }
}
