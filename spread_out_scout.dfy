/**
 * The spread-out scout (`strategy/spread_out_scout.rs`): it sends ants
 * towards a regular lattice of grid points, every seventh row and column,
 * through `best_orders_to_target`.
 */
module SpreadOutScout {
  import opened Grid
  import opened SearchResults
  import opened Sequences
  import opened Orderings
  import MultiSearch
  import Strategy

  /** `(from..n).step_by(step)`: from, from + step, ... while below n. */
  function Multiples(step: nat, from: nat, n: nat): (r: seq<nat>)
    requires step > 0
    decreases n - from
  {
    if from >= n then [] else [from] + Multiples(step, from + step, n)
  }

  /** The cells of one row at the given columns. */
  function RowPoints(row: nat, cols: seq<nat>): (r: seq<Position>)
    ensures |r| == |cols|
    ensures forall k :: 0 <= k < |cols| ==> r[k] == Position(row, cols[k])
  {
    if cols == [] then [] else [Position(row, cols[0])] + RowPoints(row, cols[1..])
  }

  /** The cells of the given rows and columns, rows outer, columns inner. */
  function Points(rows: seq<nat>, cols: seq<nat>): seq<Position>
  {
    if rows == [] then [] else RowPoints(rows[0], cols) + Points(rows[1..], cols)
  }

  /** The lattice `grid_points` builds. */
  function GridPointsSpec(size: Position, step: Position): seq<Position>
    requires step.row > 0 && step.col > 0
  {
    Points(Multiples(step.row, step.row, size.row), Multiples(step.col, step.col, size.col))
  }

  /** `grid_points`: the two nested `step_by` loops. `step_by(0)` panics, so
      both steps must be positive. */
  method GridPoints(size: Position, step: Position) returns (result: seq<Position>)
    requires step.row > 0 && step.col > 0
    ensures result == GridPointsSpec(size, step)
  {
    ghost var cols := Multiples(step.col, step.col, size.col);
    result := [];
    var row := step.row;
    while row < size.row
      invariant result + Points(Multiples(step.row, row, size.row), cols) == GridPointsSpec(size, step)
      decreases size.row - row
    {
      ghost var before := result;
      var col := step.col;
      while col < size.col
        invariant result + RowPoints(row, Multiples(step.col, col, size.col)) == before + RowPoints(row, cols)
        decreases size.col - col
      {
        ghost var tail := Multiples(step.col, col + step.col, size.col);
        RowPointsCons(row, col, tail);
        Associative(result, [Position(row, col)], RowPoints(row, tail));
        result := result + [Position(row, col)];
        col := col + step.col;
      }
      assert result == before + RowPoints(row, cols) by {
        assert Multiples(step.col, col, size.col) == [];
      }
      ghost var later := Multiples(step.row, row + step.row, size.row);
      PointsCons(row, later, cols);
      Associative(before, RowPoints(row, cols), Points(later, cols));
      row := row + step.row;
    }
  }

  lemma RowPointsCons(row: nat, col: nat, tail: seq<nat>)
    ensures RowPoints(row, [col] + tail) == [Position(row, col)] + RowPoints(row, tail)
  {
    assert ([col] + tail)[1..] == tail;
  }

  lemma PointsCons(row: nat, later: seq<nat>, cols: seq<nat>)
    ensures Points([row] + later, cols) == RowPoints(row, cols) + Points(later, cols)
  {
    assert ([row] + later)[1..] == later;
  }

  // ---------------------------------------------------------------------
  // What the lattice is

  lemma ModStep(a: nat, b: nat)
    requires b > 0
    ensures (a + b) % b == a % b
    ensures (a + b) / b == a / b + 1
  {
    DivModUnique(a + b, b, a / b + 1, a % b);
  }

  /** The values `step_by` yields: from `from` on, below `n`, `step` apart. */
  lemma {:induction false} MultiplesMembers(step: nat, from: nat, n: nat)
    requires step > 0
    ensures forall x :: x in Multiples(step, from, n) <==> from <= x < n && (x - from) % step == 0
    decreases n - from
  {
    if from < n {
      MultiplesMembers(step, from + step, n);
      forall x
        ensures x in Multiples(step, from, n) <==> from <= x < n && (x - from) % step == 0
      {
        if from + step <= x {
          ModStep(x - from - step, step);
        }
      }
    }
  }

  /** ... in strictly increasing order. */
  lemma {:induction false} MultiplesIncreasing(step: nat, from: nat, n: nat)
    requires step > 0
    ensures forall i, j :: 0 <= i < j < |Multiples(step, from, n)| ==>
      Multiples(step, from, n)[i] < Multiples(step, from, n)[j]
    ensures forall x :: x in Multiples(step, from, n) ==> from <= x
    decreases n - from
  {
    if from < n {
      var m := Multiples(step, from, n);
      var tail := Multiples(step, from + step, n);
      MultiplesIncreasing(step, from + step, n);
      forall i, j | 0 <= i < j < |m|
        ensures m[i] < m[j]
      {
        if i == 0 {
          assert m[j] in tail;
        } else {
          assert m[i] == tail[i - 1] && m[j] == tail[j - 1];
        }
      }
    }
  }

  /** ... and as many as fit. */
  lemma {:induction false} MultiplesLength(step: nat, from: nat, n: nat)
    requires step > 0
    ensures |Multiples(step, from, n)| == if from >= n then 0 else (n - 1 - from) / step + 1
    decreases n - from
  {
    if from < n {
      MultiplesLength(step, from + step, n);
      if from + step < n {
        ModStep(n - 1 - from - step, step);
      } else {
        DivModUnique(n - 1 - from, step, 0, n - 1 - from);
      }
    }
  }

  /** Every point of `Points(rows, cols)` takes its row from `rows` and its
      column from `cols`, and every such pair is a point. */
  lemma {:induction false} PointsMembers(rows: seq<nat>, cols: seq<nat>)
    ensures forall p :: p in Points(rows, cols) <==> p.row in rows && p.col in cols
  {
    if rows != [] {
      PointsMembers(rows[1..], cols);
      forall p
        ensures p in Points(rows, cols) <==> p.row in rows && p.col in cols
      {
        assert p.row in rows <==> p.row == rows[0] || p.row in rows[1..];
        if p.row == rows[0] && p.col in cols {
          var k :| 0 <= k < |cols| && cols[k] == p.col;
          assert RowPoints(rows[0], cols)[k] == p;
        }
      }
    }
  }

  lemma {:induction false} PointsLength(rows: seq<nat>, cols: seq<nat>)
    ensures |Points(rows, cols)| == |rows| * |cols|
  {
    if rows != [] {
      PointsLength(rows[1..], cols);
      assert |rows| * |cols| == (|rows| - 1) * |cols| + |cols|;
    }
  }

  /** Row-major order: strictly increasing rows and columns give points in
      strictly increasing (row, column) order. */
  lemma {:induction false} PointsRowMajor(rows: seq<nat>, cols: seq<nat>)
    requires forall i, j :: 0 <= i < j < |rows| ==> rows[i] < rows[j]
    requires forall i, j :: 0 <= i < j < |cols| ==> cols[i] < cols[j]
    ensures forall i, j :: 0 <= i < j < |Points(rows, cols)| ==>
      CmpPos(Points(rows, cols)[i], Points(rows, cols)[j]) == Less
  {
    if rows != [] {
      var head := RowPoints(rows[0], cols);
      var tail := Points(rows[1..], cols);
      PointsRowMajor(rows[1..], cols);
      PointsMembers(rows[1..], cols);
      var all := head + tail;
      forall i, j | 0 <= i < j < |all|
        ensures CmpPos(all[i], all[j]) == Less
      {
        if j < |head| {
        } else if i < |head| {
          assert all[j] in tail;
          var k :| 0 <= k < |rows[1..]| && rows[1..][k] == all[j].row;
          assert rows[k + 1] == all[j].row;
        } else {
          assert all[i] == tail[i - |head|] && all[j] == tail[j - |head|];
        }
      }
    }
  }

  /** The number of multiples of `step` in `[step, n)`. */
  function CountMultiples(step: nat, n: nat): nat
    requires step > 0
  {
    if n == 0 then 0 else (n - 1) / step
  }

  /** A row is `step_by`'s iff it is a positive multiple of the step below
      the size. */
  lemma LatticeAxis(step: nat, n: nat)
    requires step > 0
    ensures forall x :: x in Multiples(step, step, n) <==> step <= x < n && x % step == 0
  {
    MultiplesMembers(step, step, n);
    forall x | step <= x
      ensures (x - step) % step == x % step
    {
      ModStep(x - step, step);
    }
  }

  /**
   * What `grid_points` yields: a point for every pair of a row that is a
   * positive multiple of `step.row` below `size.row` and a column that is a
   * positive multiple of `step.col` below `size.col`, and nothing else. So
   * no point lies on row 0 or column 0.
   */
  lemma GridPointsMembers(size: Position, step: Position)
    requires step.row > 0 && step.col > 0
    ensures forall p :: p in GridPointsSpec(size, step) <==>
      && step.row <= p.row < size.row && p.row % step.row == 0
      && step.col <= p.col < size.col && p.col % step.col == 0
    ensures forall p :: p in GridPointsSpec(size, step) ==> p.row != 0 && p.col != 0
  {
    PointsMembers(Multiples(step.row, step.row, size.row), Multiples(step.col, step.col, size.col));
    LatticeAxis(step.row, size.row);
    LatticeAxis(step.col, size.col);
  }

  /** The points come in row-major order, hence without duplicates. */
  lemma GridPointsRowMajor(size: Position, step: Position)
    requires step.row > 0 && step.col > 0
    ensures forall i, j :: 0 <= i < j < |GridPointsSpec(size, step)| ==>
      CmpPos(GridPointsSpec(size, step)[i], GridPointsSpec(size, step)[j]) == Less
    ensures NoDuplicates(GridPointsSpec(size, step))
  {
    MultiplesIncreasing(step.row, step.row, size.row);
    MultiplesIncreasing(step.col, step.col, size.col);
    PointsRowMajor(Multiples(step.row, step.row, size.row), Multiples(step.col, step.col, size.col));
    var g := GridPointsSpec(size, step);
    forall i, j | 0 <= i < j < |g|
      ensures g[i] != g[j]
    {
      assert CmpPos(g[i], g[j]) == Less;
    }
  }

  /** There are as many points as the product of the two counts. */
  lemma GridPointsCount(size: Position, step: Position)
    requires step.row > 0 && step.col > 0
    ensures |GridPointsSpec(size, step)| == CountMultiples(step.row, size.row) * CountMultiples(step.col, size.col)
  {
    PointsLength(Multiples(step.row, step.row, size.row), Multiples(step.col, step.col, size.col));
    MultiplesLength(step.row, step.row, size.row);
    MultiplesLength(step.col, step.col, size.col);
    if size.row > step.row {
      ModStep(size.row - 1 - step.row, step.row);
    } else if size.row > 0 {
      DivModUnique(size.row - 1, step.row, 0, size.row - 1);
    }
    if size.col > step.col {
      ModStep(size.col - 1 - step.col, step.col);
    } else if size.col > 0 {
      DivModUnique(size.col - 1, step.col, 0, size.col - 1);
    }
  }

  /** On a 15 x 15 map the scout's lattice has four points; on a 7 x 20 map
      it has none, as row 7 is already off the map. */
  lemma ScoutLatticeExamples()
    ensures GridPointsSpec(Position(15, 15), Position(7, 7)) ==
            [Position(7, 7), Position(7, 14), Position(14, 7), Position(14, 14)]
    ensures GridPointsSpec(Position(7, 20), Position(7, 7)) == []
  {
    assert Multiples(7, 7, 15) == [7, 14];
  }

  /** The lattice step of the scout. */
  const ScoutStep := Position(7, 7)

  /**
   * `SpreadOutScout::apply`: the targets are the lattice points seven rows
   * and seven columns apart, at most 2 results per target and paths of at
   * most 30 steps. With a sound search, every ordered ant was available and
   * heads for a lattice point off row 0 and column 0. The chosen results
   * are drawn from the paths pooled over all lattice points, and every pooled
   * path left out clashes with a chosen one.
   */
  method Apply(search: MultiSearch.SingleTargetSearch, size: Position, antsAvailable: set<Position>)
    returns (orders: seq<Order>, antsLeft: set<Position>, ghost results: seq<SearchResult>,
             ghost visited: seq<Position>, ghost pooled: seq<SearchResult>)
    requires ValidSize(size)
    ensures Elements(visited) == Elements(GridPointsSpec(size, ScoutStep))
    ensures pooled == MultiSearch.Pooled(search, antsAvailable, visited, 2, 30)
    ensures multiset(results) <= multiset(pooled)
    ensures forall r :: r in pooled ==> r in results || MultiSearch.Conflicts(r, results)
    ensures MultiSearch.ConflictFree(results)
    ensures orders == Strategy.FirstOrders(results, size)
    ensures antsLeft == antsAvailable - MultiSearch.FirstSteps(results)
    ensures antsLeft <= antsAvailable
    ensures forall i, j :: 0 <= i < j < |orders| ==> orders[i].pos != orders[j].pos
    ensures MultiSearch.Sound(search, antsAvailable, Elements(GridPointsSpec(size, ScoutStep)), 2, 30) ==>
      && (forall o :: o in orders ==> o.pos in antsAvailable && o.pos !in antsLeft)
      && |antsAvailable| - |antsLeft| == |results|
      && (forall r :: r in results ==>
            && LastStep(r).row % 7 == 0 && LastStep(r).col % 7 == 0
            && LastStep(r).row != 0 && LastStep(r).col != 0
            && LastStep(r).row < size.row && LastStep(r).col < size.col)
  {
    var targets := GridPoints(size, ScoutStep);
    GridPointsMembers(size, ScoutStep);
    orders, antsLeft, results, visited, pooled := Strategy.BestOrdersToTarget(search, targets, size, antsAvailable, 2, 30);
  }
}
