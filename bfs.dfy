/**
 * The breadth-first search (`strategy/search/bfs.rs`): nearest orders from a
 * set of source cells to one destination, found by searching backwards from
 * the destination one layer per round. A round expands every cell of the
 * current fringe along the directions the world step offers there, skipping
 * cells of the previous and the current fringe; every reached cell that is a
 * source yields the reversed step, an order from the source back towards the
 * fringe. The search stops when the fringe runs dry, when the quota of
 * results or the number of sources is reached, or after `cutoff` rounds.
 *
 * The world step is represented by its `available_directions` (a function of
 * the position) and its size. Cells of one fringe are visited in an
 * unspecified order, as the source iterates a hash set.
 */
module Bfs {
  import opened Grid

  /** The cells reached in one round from the cells `sources` of the fringe
      `cur`, skipping the previous fringe `prev` and `cur` itself. */
  function ExpandFrom(sources: set<Position>, prev: set<Position>, cur: set<Position>,
                      avail: Position -> seq<Direction>, size: Position): (r: set<Position>)
    requires ValidSize(size)
    ensures r !! prev && r !! cur
  {
    set p, d | p in sources && d in avail(p) && Neighbour(p, d, size) !in prev
                && Neighbour(p, d, size) !in cur :: Neighbour(p, d, size)
  }

  /** The previous and the current fringe after `k` rounds. */
  function Layers(k: nat, to: Position, avail: Position -> seq<Direction>, size: Position)
    : (set<Position>, set<Position>)
    requires ValidSize(size)
  {
    if k == 0 then ({}, {to})
    else
      var (prev, cur) := Layers(k - 1, to, avail, size);
      (cur, ExpandFrom(cur, prev, cur, avail, size))
  }

  /** The cells first reached in round `k` (round 0 is the destination). */
  function Layer(k: nat, to: Position, avail: Position -> seq<Direction>, size: Position)
    : set<Position>
    requires ValidSize(size)
  {
    Layers(k, to, avail, size).1
  }

  /** A round never re-enters the fringe of the two rounds before it, and
      every cell it reaches is one step from the fringe of the round before. */
  lemma LayerIsFresh(k: nat, to: Position, avail: Position -> seq<Direction>, size: Position)
    requires ValidSize(size) && k > 0
    ensures Layer(k, to, avail, size) !! Layer(k - 1, to, avail, size)
    ensures k > 1 ==> Layer(k, to, avail, size) !! Layer(k - 2, to, avail, size)
    ensures forall q :: q in Layer(k, to, avail, size) ==>
      exists p, d :: p in Layer(k - 1, to, avail, size) && d in avail(p) && Neighbour(p, d, size) == q
  {
    if k > 1 {
      assert Layers(k - 1, to, avail, size).0 == Layer(k - 2, to, avail, size);
    }
  }

  /** Once a fringe runs dry, every later one is empty too. */
  lemma {:induction false} DryFringeStaysDry(k: nat, m: nat, to: Position,
                                             avail: Position -> seq<Direction>, size: Position)
    requires ValidSize(size) && k <= m && Layer(k, to, avail, size) == {}
    ensures Layer(m, to, avail, size) == {}
    decreases m - k
  {
    if k < m {
      var (prev, cur) := Layers(k, to, avail, size);
      assert Layers(k + 1, to, avail, size) == (cur, ExpandFrom(cur, prev, cur, avail, size));
      assert Layer(k + 1, to, avail, size) == {};
      DryFringeStaysDry(k + 1, m, to, avail, size);
    }
  }

  /** Around an in-grid destination every fringe stays in the grid. */
  lemma {:induction false} LayersInGrid(k: nat, to: Position, avail: Position -> seq<Direction>, size: Position)
    requires ValidSize(size) && InGrid(to, size)
    ensures forall p :: p in Layers(k, to, avail, size).0 ==> InGrid(p, size)
    ensures forall p :: p in Layers(k, to, avail, size).1 ==> InGrid(p, size)
  {
    if k > 0 {
      LayersInGrid(k - 1, to, avail, size);
      var (prev, cur) := Layers(k - 1, to, avail, size);
      forall q | q in ExpandFrom(cur, prev, cur, avail, size)
        ensures InGrid(q, size)
      {
        var p, d :| p in cur && d in avail(p) && Neighbour(p, d, size) == q;
      }
    }
  }

  /** What a result of round `round` is: the reverse of an offered step
      `fwd` from the previous fringe into a source first reached in that
      round. */
  predicate Found(res: Order, fwd: Order, round: nat, to: Position, from: set<Position>,
                  avail: Position -> seq<Direction>, size: Position)
    requires ValidSize(size)
  {
    && round >= 1
    && res == Reverse(fwd, size)
    && fwd.pos in Layer(round - 1, to, avail, size)
    && fwd.dir in avail(fwd.pos)
    && res.pos in from
    && res.pos in Layer(round, to, avail, size)
  }

  /** The results so far: each found in a round no later than `upTo`, in
      round order. */
  ghost predicate Sound(results: seq<Order>, rounds: seq<nat>, forward: seq<Order>, upTo: nat,
                        to: Position, from: set<Position>, avail: Position -> seq<Direction>,
                        size: Position)
    requires ValidSize(size)
  {
    && |rounds| == |results| == |forward|
    && (forall i :: 0 <= i < |results| ==>
          rounds[i] <= upTo && Found(results[i], forward[i], rounds[i], to, from, avail, size))
    && (forall i, j :: 0 <= i < j < |results| ==> rounds[i] <= rounds[j])
  }

  /** Every source among `cells` has a result. */
  predicate Covered(results: seq<Order>, from: set<Position>, cells: set<Position>)
  {
    forall p :: p in from && p in cells ==> exists i :: 0 <= i < |results| && results[i].pos == p
  }

  /** The fresh cells one fringe cell reaches along the directions `dirs`. */
  function CellExpansion(pos: Position, dirs: seq<Direction>, prev: set<Position>,
                         cur: set<Position>, size: Position): set<Position>
    requires ValidSize(size)
  {
    if dirs == [] then {}
    else
      var q := Neighbour(pos, dirs[|dirs| - 1], size);
      CellExpansion(pos, dirs[..|dirs| - 1], prev, cur, size) + (if q !in prev && q !in cur then {q} else {})
  }

  lemma {:induction false} CellExpansionMembers(pos: Position, dirs: seq<Direction>, prev: set<Position>,
                                                cur: set<Position>, size: Position)
    requires ValidSize(size)
    ensures forall q :: q in CellExpansion(pos, dirs, prev, cur, size) <==>
      q !in prev && q !in cur && exists d :: d in dirs && Neighbour(pos, d, size) == q
  {
    if dirs != [] {
      var init := dirs[..|dirs| - 1];
      CellExpansionMembers(pos, init, prev, cur, size);
      assert dirs == init + [dirs[|dirs| - 1]];
      forall q | q !in prev && q !in cur && (exists d :: d in dirs && Neighbour(pos, d, size) == q)
        ensures q in CellExpansion(pos, dirs, prev, cur, size)
      {
        var d :| d in dirs && Neighbour(pos, d, size) == q;
        if d != dirs[|dirs| - 1] {
          assert d in init;
        }
      }
    }
  }

  /**
   * `BFS::search`. `rounds[i]` is the round in which result `i` was found
   * and `forward[i]` the step it reverses. The results come round by round
   * (nearest first) and none comes later than round `cutoff`; there are at
   * most as many as the quota and as the sources; and when the search stops
   * short of both limits, every source first reached within `cutoff` rounds
   * has a result.
   */
  method Search(avail: Position -> seq<Direction>, size: Position, to: Position,
                from: set<Position>, maxResultLen: nat, cutoff: nat)
    returns (results: seq<Order>, ghost rounds: seq<nat>, ghost forward: seq<Order>)
    requires ValidSize(size)
    ensures |results| <= maxResultLen && |results| <= |from|
    ensures maxResultLen == 0 || from == {} || cutoff == 0 ==> results == []
    ensures |rounds| == |results| == |forward|
    ensures forall i :: 0 <= i < |results| ==>
      rounds[i] <= cutoff && Found(results[i], forward[i], rounds[i], to, from, avail, size)
    ensures forall i, j :: 0 <= i < j < |results| ==> rounds[i] <= rounds[j]
    ensures |results| < maxResultLen && |results| < |from| ==>
      forall k: nat, p :: 1 <= k <= cutoff && p in from && p in Layer(k, to, avail, size) ==>
        exists i :: 0 <= i < |results| && results[i].pos == p
  {
    var fringe := {to};
    var oldFringe := {};
    results, rounds, forward := [], [], [];
    var searchLen := 0;
    while fringe != {} && |results| < maxResultLen && |results| < |from| && searchLen < cutoff
      invariant searchLen <= cutoff
      invariant searchLen == 0 ==> results == []
      invariant (oldFringe, fringe) == Layers(searchLen, to, avail, size)
      invariant Sound(results, rounds, forward, searchLen, to, from, avail, size)
      invariant |results| <= maxResultLen && |results| <= |from|
      invariant forall k: nat :: 1 <= k <= searchLen ==> Covered(results, from, Layer(k, to, avail, size))
      decreases cutoff - searchLen
    {
      searchLen := searchLen + 1;
      var next, results', stop;
      ghost var rounds', forward';
      next, results', rounds', forward', stop :=
        ExpandRound(avail, size, from, maxResultLen, oldFringe, fringe, searchLen, to, results, rounds, forward);
      forall k: nat | 1 <= k < searchLen
        ensures Covered(results', from, Layer(k, to, avail, size))
      {
        assert Covered(results, from, Layer(k, to, avail, size));
      }
      results, rounds, forward := results', rounds', forward';
      if stop {
        break;
      }
      oldFringe, fringe := fringe, next;
    }
    if |results| < maxResultLen && |results| < |from| {
      forall k: nat | searchLen < k <= cutoff
        ensures Layer(k, to, avail, size) == {}
      {
        DryFringeStaysDry(searchLen, k, to, avail, size);
      }
    }
  }

  /** One round of the search: every cell of the fringe is expanded, and the
      round stops early once the quota or the number of sources is met. */
  method ExpandRound(avail: Position -> seq<Direction>, size: Position, from: set<Position>,
                     maxResultLen: nat, prevFringe: set<Position>, fringe: set<Position>,
                     round: nat, ghost to: Position, results: seq<Order>, ghost rounds: seq<nat>,
                     ghost forward: seq<Order>)
    returns (next: set<Position>, results': seq<Order>, ghost rounds': seq<nat>,
             ghost forward': seq<Order>, stop: bool)
    requires ValidSize(size) && round >= 1
    requires Layers(round - 1, to, avail, size) == (prevFringe, fringe)
    requires Sound(results, rounds, forward, round - 1, to, from, avail, size)
    requires |results| < maxResultLen && |results| < |from|
    ensures Sound(results', rounds', forward', round, to, from, avail, size)
    ensures |results| <= |results'| && forall i :: 0 <= i < |results| ==> results'[i] == results[i]
    ensures |results'| <= maxResultLen && |results'| <= |from|
    ensures stop <==> !(|results'| < maxResultLen && |results'| < |from|)
    ensures !stop ==> next == Layer(round, to, avail, size) && Covered(results', from, next)
  {
    assert Layers(round, to, avail, size) == (fringe, ExpandFrom(fringe, prevFringe, fringe, avail, size));
    next := {};
    results', rounds', forward' := results, rounds, forward;
    stop := false;
    var todo := fringe;
    while todo != {}
      invariant todo <= fringe
      invariant next == ExpandFrom(fringe - todo, prevFringe, fringe, avail, size)
      invariant Sound(results', rounds', forward', round, to, from, avail, size)
      invariant |results| <= |results'| && forall i :: 0 <= i < |results| ==> results'[i] == results[i]
      invariant |results'| < maxResultLen && |results'| < |from|
      invariant Covered(results', from, next)
      decreases todo
    {
      var pos :| pos in todo;
      CellWithinRound(pos, prevFringe, fringe, avail, size);
      var cell, r, rs, fs, st := ExpandCell(avail, size, from, maxResultLen, pos, prevFringe, fringe,
                                            round, to, results', rounds', forward');
      results', rounds', forward' := r, rs, fs;
      if st {
        stop := true;
        return;
      }
      ExpandOneMore(fringe - todo, pos, prevFringe, fringe, avail, size);
      assert (fringe - todo) + {pos} == fringe - (todo - {pos});
      next := next + cell;
      todo := todo - {pos};
    }
    assert fringe - todo == fringe;
  }

  /** Expanding one fringe cell along the directions offered there. */
  method ExpandCell(avail: Position -> seq<Direction>, size: Position, from: set<Position>,
                    maxResultLen: nat, pos: Position, prevFringe: set<Position>,
                    fringe: set<Position>, round: nat, ghost to: Position, results: seq<Order>,
                    ghost rounds: seq<nat>, ghost forward: seq<Order>)
    returns (cell: set<Position>, results': seq<Order>, ghost rounds': seq<nat>,
             ghost forward': seq<Order>, stop: bool)
    requires ValidSize(size) && round >= 1 && pos in fringe
    requires Layer(round - 1, to, avail, size) == fringe
    requires CellExpansion(pos, avail(pos), prevFringe, fringe, size) <= Layer(round, to, avail, size)
    requires Sound(results, rounds, forward, round, to, from, avail, size)
    requires |results| < maxResultLen && |results| < |from|
    ensures Sound(results', rounds', forward', round, to, from, avail, size)
    ensures |results| <= |results'| && forall i :: 0 <= i < |results| ==> results'[i] == results[i]
    ensures |results'| <= maxResultLen && |results'| <= |from|
    ensures stop <==> !(|results'| < maxResultLen && |results'| < |from|)
    ensures !stop ==> cell == CellExpansion(pos, avail(pos), prevFringe, fringe, size) && Covered(results', from, cell)
  {
    var dirs := avail(pos);
    cell := {};
    results', rounds', forward' := results, rounds, forward;
    stop := false;
    CellExpansionMembers(pos, dirs, prevFringe, fringe, size);
    assert dirs[..0] == [];
    for j := 0 to |dirs|
      invariant cell == CellExpansion(pos, dirs[..j], prevFringe, fringe, size)
      invariant Sound(results', rounds', forward', round, to, from, avail, size)
      invariant |results| <= |results'| && forall i :: 0 <= i < |results| ==> results'[i] == results[i]
      invariant |results'| < maxResultLen && |results'| < |from|
      invariant Covered(results', from, cell)
    {
      assert dirs[..j + 1][..j] == dirs[..j];
      assert dirs[j] in dirs;
      var r;
      ghost var rs, fs;
      cell, r, rs, fs, stop := Visit(avail, size, from, maxResultLen, Order(pos, dirs[j]), prevFringe, fringe,
                                     round, to, cell, results', rounds', forward');
      results', rounds', forward' := r, rs, fs;
      if stop {
        return;
      }
    }
    assert dirs[..|dirs|] == dirs;
  }

  /** Visiting one step `o` from a fringe cell: a fresh target joins the next
      fringe, and a fresh target that is a source yields the reversed step. */
  method Visit(avail: Position -> seq<Direction>, size: Position, from: set<Position>,
               maxResultLen: nat, o: Order, prevFringe: set<Position>,
               fringe: set<Position>, round: nat, ghost to: Position, cell: set<Position>,
               results: seq<Order>, ghost rounds: seq<nat>, ghost forward: seq<Order>)
    returns (cell': set<Position>, results': seq<Order>, ghost rounds': seq<nat>,
             ghost forward': seq<Order>, stop: bool)
    requires ValidSize(size) && round >= 1 && o.pos in fringe && o.dir in avail(o.pos)
    requires Layer(round - 1, to, avail, size) == fringe
    requires TargetPos(o, size) !in prevFringe && TargetPos(o, size) !in fringe ==>
      TargetPos(o, size) in Layer(round, to, avail, size)
    requires Sound(results, rounds, forward, round, to, from, avail, size)
    requires |results| < maxResultLen && |results| < |from|
    requires Covered(results, from, cell)
    ensures Sound(results', rounds', forward', round, to, from, avail, size)
    ensures |results| <= |results'| && forall i :: 0 <= i < |results| ==> results'[i] == results[i]
    ensures |results'| <= maxResultLen && |results'| <= |from|
    ensures stop <==> !(|results'| < maxResultLen && |results'| < |from|)
    ensures !stop ==> Covered(results', from, cell')
    ensures !stop ==> cell' == cell + (if TargetPos(o, size) !in prevFringe && TargetPos(o, size) !in fringe
                                       then {TargetPos(o, size)} else {})
  {
    cell' := cell;
    results', rounds', forward' := results, rounds, forward;
    stop := false;
    var target := TargetPos(o, size);
    if target !in prevFringe && target !in fringe {
      if target in from {
        assert Found(Reverse(o, size), o, round, to, from, avail, size);
        SoundAppend(results', rounds', forward', round, Reverse(o, size), o, to, from, avail, size);
        CoveredAppend(results', Reverse(o, size), from, cell');
        results' := results' + [Reverse(o, size)];
        rounds' := rounds' + [round];
        forward' := forward' + [o];
        if |results'| >= maxResultLen || |results'| >= |from| {
          stop := true;
          return;
        }
        assert results'[|results'| - 1].pos == target;
      }
      CoveredAdd(results', from, cell', target);
      cell' := cell' + {target};
    }
  }

  lemma CoveredAppend(results: seq<Order>, res: Order, from: set<Position>, cells: set<Position>)
    requires Covered(results, from, cells)
    ensures Covered(results + [res], from, cells)
  {
    forall p | p in from && p in cells
      ensures exists i :: 0 <= i < |results| + 1 && (results + [res])[i].pos == p
    {
      var i :| 0 <= i < |results| && results[i].pos == p;
      assert (results + [res])[i] == results[i];
    }
  }

  lemma CoveredAdd(results: seq<Order>, from: set<Position>, cells: set<Position>, q: Position)
    requires Covered(results, from, cells)
    requires q in from ==> exists i :: 0 <= i < |results| && results[i].pos == q
    ensures Covered(results, from, cells + {q})
  {
  }

  /** The fresh neighbours of a fringe cell are reached in the round. */
  lemma CellWithinRound(pos: Position, prev: set<Position>, cur: set<Position>,
                        avail: Position -> seq<Direction>, size: Position)
    requires ValidSize(size) && pos in cur
    ensures CellExpansion(pos, avail(pos), prev, cur, size) <= ExpandFrom(cur, prev, cur, avail, size)
  {
    ExpandOneMore(cur - {pos}, pos, prev, cur, avail, size);
    assert (cur - {pos}) + {pos} == cur;
  }

  lemma SoundAppend(results: seq<Order>, rounds: seq<nat>, forward: seq<Order>, round: nat,
                    res: Order, fwd: Order, to: Position, from: set<Position>,
                    avail: Position -> seq<Direction>, size: Position)
    requires ValidSize(size)
    requires Sound(results, rounds, forward, round, to, from, avail, size)
    requires Found(res, fwd, round, to, from, avail, size)
    ensures Sound(results + [res], rounds + [round], forward + [fwd], round, to, from, avail, size)
  {
  }

  /** Expanding one more fringe cell adds exactly its fresh neighbours. */
  lemma ExpandOneMore(done: set<Position>, pos: Position, prev: set<Position>, cur: set<Position>,
                      avail: Position -> seq<Direction>, size: Position)
    requires ValidSize(size)
    ensures ExpandFrom(done + {pos}, prev, cur, avail, size) ==
      ExpandFrom(done, prev, cur, avail, size) + CellExpansion(pos, avail(pos), prev, cur, size)
  {
    CellExpansionMembers(pos, avail(pos), prev, cur, size);
    forall q | q in CellExpansion(pos, avail(pos), prev, cur, size)
      ensures q in ExpandFrom(done + {pos}, prev, cur, avail, size)
    {
      var d :| d in avail(pos) && Neighbour(pos, d, size) == q;
    }
  }
}

/** The search's unit tests on a one-row world without water. */
module BfsScenarios {
  import opened Grid
  import opened Bfs

  function Open(p: Position): seq<Direction>
  {
    AllDirections
  }

  function Keep(q: Position, prev: set<Position>, cur: set<Position>): set<Position>
  {
    if q !in prev && q !in cur then {q} else {}
  }

  /** One cell's fresh neighbours when every direction is offered. */
  lemma OpenCell(pos: Position, prev: set<Position>, cur: set<Position>, size: Position)
    requires ValidSize(size)
    ensures CellExpansion(pos, Open(pos), prev, cur, size) ==
      Keep(Neighbour(pos, North, size), prev, cur) + Keep(Neighbour(pos, South, size), prev, cur) +
      Keep(Neighbour(pos, East, size), prev, cur) + Keep(Neighbour(pos, West, size), prev, cur)
  {
    var n := Keep(Neighbour(pos, North, size), prev, cur);
    var s := Keep(Neighbour(pos, South, size), prev, cur);
    var e := Keep(Neighbour(pos, East, size), prev, cur);
    var w := Keep(Neighbour(pos, West, size), prev, cur);
    assert [North][..0] == [];
    assert CellExpansion(pos, [North], prev, cur, size) == n;
    assert [North, South][..1] == [North];
    assert CellExpansion(pos, [North, South], prev, cur, size) == n + s;
    assert [North, South, East][..2] == [North, South];
    assert CellExpansion(pos, [North, South, East], prev, cur, size) == n + s + e;
    assert Open(pos)[..3] == [North, South, East];
  }

  /** A round from a fringe of two cells. */
  lemma ExpandTwo(a: Position, b: Position, prev: set<Position>, size: Position)
    requires ValidSize(size)
    ensures ExpandFrom({a, b}, prev, {a, b}, Open, size) ==
      CellExpansion(a, Open(a), prev, {a, b}, size) + CellExpansion(b, Open(b), prev, {a, b}, size)
  {
    assert ExpandFrom({}, prev, {a, b}, Open, size) == {};
    ExpandOneMore({}, a, prev, {a, b}, Open, size);
    assert {} + {a} == {a};
    ExpandOneMore({a}, b, prev, {a, b}, Open, size);
    assert {a} + {b} == {a, b};
  }

  const Row := Position(1, 8)
  const Origin := Position(0, 0)

  lemma RowLayer1(to: Position)
    requires to == Origin
    ensures Layers(1, to, Open, Row) == ({Origin}, {Position(0, 1), Position(0, 7)})
  {
    assert Layers(0, to, Open, Row) == ({}, {Origin});
    assert ExpandFrom({}, {}, {Origin}, Open, Row) == {};
    ExpandOneMore({}, Origin, {}, {Origin}, Open, Row);
    assert {} + {Origin} == {Origin};
    OpenCell(Origin, {}, {Origin}, Row);
    assert Neighbour(Origin, North, Row) == Origin && Neighbour(Origin, South, Row) == Origin;
    assert Neighbour(Origin, East, Row) == Position(0, 1) && Neighbour(Origin, West, Row) == Position(0, 7);
    assert ExpandFrom({Origin}, {}, {Origin}, Open, Row) == CellExpansion(Origin, Open(Origin), {}, {Origin}, Row);
    assert Keep(Origin, {}, {Origin}) == {};
    assert CellExpansion(Origin, Open(Origin), {}, {Origin}, Row) == {Position(0, 1), Position(0, 7)};
    assert Layers(1, to, Open, Row) == ({Origin}, ExpandFrom({Origin}, {}, {Origin}, Open, Row));
  }

  /** One fringe cell of the single-row world: North and South lead back to
      it, East to column `e` and West to column `w`. */
  lemma RowCell(c: nat, e: nat, w: nat, prev: set<Position>, cur: set<Position>)
    requires c < 8 && e == (if c == 7 then 0 else c + 1) && w == (if c == 0 then 7 else c - 1)
    requires Position(0, c) in cur
    ensures CellExpansion(Position(0, c), Open(Position(0, c)), prev, cur, Row) ==
      Keep(Position(0, e), prev, cur) + Keep(Position(0, w), prev, cur)
  {
    OpenCell(Position(0, c), prev, cur, Row);
    WrapOnce(c + 1, 8);
    WrapOnce(c + 7, 8);
    WrapOnce(0, 1);
    WrapOnce(1, 1);
  }

  lemma RowLayer2(to: Position)
    requires to == Origin
    ensures Layers(2, to, Open, Row) == ({Position(0, 1), Position(0, 7)}, {Position(0, 2), Position(0, 6)})
  {
    var l1 := {Position(0, 1), Position(0, 7)};
    assert CellExpansion(Position(0, 1), Open(Position(0, 1)), {Origin}, l1, Row) == {Position(0, 2)} by {
      RowCell(1, 2, 0, {Origin}, l1);
    }
    assert CellExpansion(Position(0, 7), Open(Position(0, 7)), {Origin}, l1, Row) == {Position(0, 6)} by {
      RowCell(7, 0, 6, {Origin}, l1);
    }
    RowLayer1(to);
    ExpandTwo(Position(0, 1), Position(0, 7), {Origin}, Row);
    assert ExpandFrom(l1, {Origin}, l1, Open, Row) == {Position(0, 2), Position(0, 6)};
    assert Layers(2, to, Open, Row) == (l1, ExpandFrom(l1, {Origin}, l1, Open, Row));
  }

  /** The fresh cells round 3 reaches from the fringe of round 2. */
  lemma RowCells3()
    ensures var l1 := {Position(0, 1), Position(0, 7)};
      var l2 := {Position(0, 2), Position(0, 6)};
      ExpandFrom(l2, l1, l2, Open, Row) == {Position(0, 3), Position(0, 5)}
  {
    var l1 := {Position(0, 1), Position(0, 7)};
    var l2 := {Position(0, 2), Position(0, 6)};
    ExpandTwo(Position(0, 2), Position(0, 6), l1, Row);
    assert CellExpansion(Position(0, 2), Open(Position(0, 2)), l1, l2, Row) == {Position(0, 3)} by {
      RowCell(2, 3, 1, l1, l2);
    }
    assert CellExpansion(Position(0, 6), Open(Position(0, 6)), l1, l2, Row) == {Position(0, 5)} by {
      RowCell(6, 7, 5, l1, l2);
    }
  }

  lemma RowLayer3(to: Position)
    requires to == Origin
    ensures Layers(3, to, Open, Row) == ({Position(0, 2), Position(0, 6)}, {Position(0, 3), Position(0, 5)})
  {
    RowLayer2(to);
    RowCells3();
    var l1 := {Position(0, 1), Position(0, 7)};
    var l2 := {Position(0, 2), Position(0, 6)};
    assert Layers(3, to, Open, Row) == (l2, ExpandFrom(l2, l1, l2, Open, Row));
  }


  /** The source (0, 3) is not reached within two rounds. */
  lemma NotFoundEarly(to: Position, res: Order, fwd: Order, round: nat)
    requires to == Origin && round <= 2
    ensures !Found(res, fwd, round, to, {Position(0, 3)}, Open, Row)
  {
    RowLayer2(to);
    if round == 1 {
      assert Layer(1, to, Open, Row) == {Position(0, 1), Position(0, 7)};
    } else if round == 2 {
      assert Layer(2, to, Open, Row) == {Position(0, 2), Position(0, 6)};
    }
  }

  /** Reached within three rounds, the source (0, 3) is reached in round 3. */
  lemma FoundInRound3(to: Position, res: Order, fwd: Order, round: nat)
    requires to == Origin && round <= 3
    requires Found(res, fwd, round, to, {Position(0, 3)}, Open, Row)
    ensures round == 3
  {
    if round <= 2 {
      NotFoundEarly(to, res, fwd, round);
      assert false;
    }
  }

  /** A result of round 3 is the westward order from (0, 3). */
  lemma ResultOfRound3(to: Position, res: Order, fwd: Order)
    requires to == Origin
    requires Found(res, fwd, 3, to, {Position(0, 3)}, Open, Row)
    ensures res == Order(Position(0, 3), West)
  {
    RowLayer2(to);
    assert fwd.pos in {Position(0, 2), Position(0, 6)};
    StepInto(fwd.pos, fwd.dir);
  }

  /** Of the cells of round 2, only (0, 2) steps into (0, 3), going East. */
  lemma StepInto(p: Position, d: Direction)
    requires p in {Position(0, 2), Position(0, 6)} && Neighbour(p, d, Row) == Position(0, 3)
    ensures p == Position(0, 2) && d == East
  {
  }

  /** The source (0, 3) is first reached in round 3. */
  lemma SourceInRound3(to: Position)
    requires to == Origin
    ensures Position(0, 3) in Layer(3, to, Open, Row)
  {
    RowLayer3(to);
  }

  /**
   * A source three steps from the destination is out of reach with a cutoff
   * of two rounds and found, with the westward order, with a cutoff of three.
   */
  method CutoffScenario() returns (short: seq<Order>, long: seq<Order>)
    ensures short == []
    ensures long == [Order(Position(0, 3), West)]
  {
    var to := Origin;
    var from := {Position(0, 3)};
    ghost var rounds, forward;
    short, rounds, forward := Search(Open, Row, to, from, 1, 2);
    if short != [] {
      NotFoundEarly(to, short[0], forward[0], rounds[0]);
      assert false;
    }
    long, rounds, forward := Search(Open, Row, to, from, 1, 3);
    if long == [] {
      SourceInRound3(to);
      assert false;
    }
    FoundInRound3(to, long[0], forward[0], rounds[0]);
    ResultOfRound3(to, long[0], forward[0]);
  }
}
