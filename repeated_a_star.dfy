/**
 * The repeated A* search (`strategy/search/repeated_a_star.rs`): nearest
 * paths from a set of sources to one destination. It searches backwards,
 * from the destination to one source at a time, cheapest-looking source
 * first, and keeps one map of visited cells across those searches, so a
 * later search starts from every path an earlier one recorded.
 *
 * A search node (`Informed`) is a path together with the Manhattan distance
 * from its last cell to the goal; its total cost is the path length plus
 * that distance. The queue is a max-heap under an ordering that ranks the
 * lowest total cost highest.
 *
 * The world step is represented by its `available_directions` and its size.
 * Costs are unbounded integers; the source truncates them to 16 bits.
 */
module RepeatedAStar {
  import opened Grid
  import opened Orderings
  import opened SearchResults
  import opened ManhattanFilter

  datatype Informed = Informed(sr: SearchResult, heuristic: int)

  /** `Informed::new`: the heuristic is the distance from the path's last
      cell to the goal. */
  function InformedNew(sr: SearchResult, goal: Position, size: Position): (r: Informed)
    ensures r.sr == sr
    ensures InGrid(LastStep(sr), size) && InGrid(goal, size) ==>
      0 <= r.heuristic && (r.heuristic == 0 <==> LastStep(sr) == goal)
  {
    Informed(sr, Manhattan(LastStep(sr), goal, size))
  }

  /** `total_cost`: moves made plus the estimate of moves still needed. */
  function TotalCost(inf: Informed): int
  {
    OrderLength(inf.sr) + inf.heuristic
  }

  /** `go_forward`: one step further in direction `dir`, re-estimated. */
  function GoForward(inf: Informed, dir: Direction, goal: Position, size: Position): (r: Informed)
    requires ValidSize(size)
    ensures r.sr == AddStep(inf.sr, Neighbour(LastStep(inf.sr), dir, size))
    ensures r.heuristic == Manhattan(LastStep(r.sr), goal, size)
  {
    InformedNew(AddStep(inf.sr, Neighbour(LastStep(inf.sr), dir, size)), goal, size)
  }

  /** The estimate never drops by more than the step taken, so the total cost
      never decreases along a path: the heuristic is consistent. */
  lemma GoForwardCostMonotone(inf: Informed, dir: Direction, goal: Position, size: Position)
    requires ValidSize(size) && InGrid(LastStep(inf.sr), size) && InGrid(goal, size)
    requires inf.heuristic == Manhattan(LastStep(inf.sr), goal, size)
    ensures TotalCost(inf) <= TotalCost(GoForward(inf, dir, goal, size))
  {
    var p := LastStep(inf.sr);
    var q := Neighbour(p, dir, size);
    StepBack(p, dir, size);
    ManhattanStep(q, Opposite(dir), goal, size);
  }

  /** `Informed::cmp`: lower total cost ranks higher, then lower heuristic,
      then the ordering of the paths. */
  function CmpInformed(a: Informed, b: Informed): Ordering
  {
    ThenWith(CmpInt(TotalCost(b), TotalCost(a)),
      ThenWith(CmpInt(b.heuristic, a.heuristic), CmpSearchResult(a.sr, b.sr)))
  }

  /** The queue's ordering is total and consistent with equality. */
  lemma CmpInformedTotal()
    ensures TotalOrder(CmpInformed)
  {
    CmpSearchResultTotal();
    forall a: Informed, b: Informed
      ensures CmpInformed(a, b) == Flip(CmpInformed(b, a))
      ensures CmpInformed(a, b) == Equal <==> a == b
    {
    }
    forall a: Informed, b: Informed, c: Informed |
      CmpInformed(a, b) == Less && CmpInformed(b, c) == Less
      ensures CmpInformed(a, c) == Less
    {
      if TotalCost(a) == TotalCost(b) == TotalCost(c) && a.heuristic == b.heuristic == c.heuristic {
        assert CmpSearchResult(a.sr, b.sr) == Less && CmpSearchResult(b.sr, c.sr) == Less;
      }
    }
  }

  /** Whichever node ranks higher has the lower total cost, and among equal
      total costs the lower heuristic. */
  lemma CmpInformedPriority(a: Informed, b: Informed)
    ensures CmpInformed(a, b) != Less ==> TotalCost(a) <= TotalCost(b)
    ensures CmpInformed(a, b) != Less && TotalCost(a) == TotalCost(b) ==> a.heuristic <= b.heuristic
    ensures TotalCost(a) < TotalCost(b) ==> CmpInformed(a, b) == Greater
  {
  }

  /** The position of the node `pop` takes from the heap: the greatest. */
  function MaxIndex(q: seq<Informed>): (i: nat)
    requires |q| > 0
    ensures i < |q|
    ensures forall j :: 0 <= j < |q| ==> CmpInformed(q[j], q[i]) != Greater
  {
    if |q| == 1 then CmpInformedTotal(); 0
    else
      var m := MaxIndex(q[1..]) + 1;
      assert forall j :: 1 <= j < |q| ==> q[j] == q[1..][j - 1];
      if CmpInformed(q[0], q[m]) == Greater then
        CmpInformedTotal();
        assert forall j :: 1 <= j < |q| ==> CmpInformed(q[j], q[m]) != Greater;
        MaxIsGreatest(q, m);
        0
      else m
  }

  lemma MaxIsGreatest(q: seq<Informed>, m: nat)
    requires 0 < m < |q| && TotalOrder(CmpInformed)
    requires CmpInformed(q[0], q[m]) == Greater
    requires forall j :: 1 <= j < |q| ==> CmpInformed(q[j], q[m]) != Greater
    ensures forall j :: 0 <= j < |q| ==> CmpInformed(q[j], q[0]) != Greater
  {
    forall j | 0 <= j < |q|
      ensures CmpInformed(q[j], q[0]) != Greater
    {
      if j > 0 {
        assert CmpInformed(q[m], q[0]) == Less;
        LessOrEqualTransitive(q[j], q[m], q[0], CmpInformed);
      }
    }
  }

  // ---------------------------------------------------------------------
  // single_search

  /** The cells of the grid. */
  function GridCells(size: Position): (r: set<Position>)
    ensures forall p :: p in r <==> InGrid(p, size)
  {
    set row: nat, col: nat | row < size.row && col < size.col :: Position(row, col)
  }

  /** Every recorded path ends at its key, starts at `start`, moves only in
      offered directions and stays in the grid. */
  ghost predicate Recorded(visited: map<Position, SearchResult>, start: Position,
                           avail: Position -> seq<Direction>, size: Position)
    requires ValidSize(size)
  {
    forall k :: k in visited ==>
      && LastStep(visited[k]) == k
      && FirstStep(visited[k]) == start
      && IsPath(visited[k], avail, size)
      && AllInGrid(visited[k], size)
  }

  /** A queued node carries its heuristic and is the start path or the path
      recorded for its last cell. */
  ghost predicate Queued(e: Informed, start: Position, goal: Position,
                         visited: map<Position, SearchResult>, size: Position)
  {
    && e.heuristic == Manhattan(LastStep(e.sr), goal, size)
    && (e.sr == Start(start) || (LastStep(e.sr) in visited && visited[LastStep(e.sr)] == e.sr))
  }

  /** `visited2` extends `visited` and never rewrites an entry. */
  ghost predicate Extends(visited2: map<Position, SearchResult>, visited: map<Position, SearchResult>)
  {
    visited.Keys <= visited2.Keys && forall k :: k in visited ==> visited2[k] == visited[k]
  }

  /** Every entry added since `visited` was within the cutoff. */
  ghost predicate NewWithinCutoff(visited2: map<Position, SearchResult>, visited: map<Position, SearchResult>,
                                  goal: Position, cutoff: int, size: Position)
  {
    forall k :: k in visited2 && k !in visited ==> OrderLength(visited2[k]) + Manhattan(k, goal, size) <= cutoff
  }

  lemma QueuedExtends(e: Informed, start: Position, goal: Position,
                      visited: map<Position, SearchResult>, visited2: map<Position, SearchResult>,
                      size: Position)
    requires Queued(e, start, goal, visited, size) && Extends(visited2, visited)
    ensures Queued(e, start, goal, visited2, size)
  {
  }

  /** What an expansion keeps, from the queue and map it started with
      (`queue`, `visited`) to the current ones (`queue2`, `visited2`). */
  ghost predicate Expanding(queue: seq<Informed>, visited: map<Position, SearchResult>,
                            queue2: seq<Informed>, visited2: map<Position, SearchResult>,
                            start: Position, goal: Position, cutoff: int,
                            avail: Position -> seq<Direction>, size: Position)
    requires ValidSize(size)
  {
    && Recorded(visited2, start, avail, size)
    && Extends(visited2, visited)
    && NewWithinCutoff(visited2, visited, goal, cutoff, size)
    && |queue| <= |queue2| && queue2[..|queue|] == queue
    && (forall e :: e in queue2 ==> e in queue || Queued(e, start, goal, visited2, size))
    && (forall k :: k in visited2 && k !in visited ==> exists e :: e in queue2 && LastStep(e.sr) == k)
    && (visited2.Keys == visited.Keys ==> queue2 == queue)
  }

  /**
   * `single_search`: A* from `start` to `goal`. The queue starts with the
   * start path and every recorded path; a popped node that ends at the goal
   * is the answer; otherwise each offered step into a cell not yet recorded
   * whose total cost is within the cutoff is recorded and queued. When the
   * queue runs dry the goal was never reached.
   */
  method SingleSearch(avail: Position -> seq<Direction>, size: Position, start: Position, goal: Position,
                      cutoff: int, visited: map<Position, SearchResult>)
    returns (found: Option<SearchResult>, visited2: map<Position, SearchResult>)
    requires ValidSize(size) && InGrid(start, size)
    requires Recorded(visited, start, avail, size)
    ensures Recorded(visited2, start, avail, size)
    ensures Extends(visited2, visited)
    ensures NewWithinCutoff(visited2, visited, goal, cutoff, size)
    ensures found.Some? ==>
      && FirstStep(found.value) == start && LastStep(found.value) == goal
      && IsPath(found.value, avail, size) && AllInGrid(found.value, size)
      && (found.value == Start(start) ||
          (goal in visited2 && visited2[goal] == found.value))
    ensures found.None? ==> start != goal && goal !in visited2
  {
    var queue := QueueRecorded(avail, size, start, goal, visited);
    visited2 := visited;
    while queue != []
      invariant Recorded(visited2, start, avail, size)
      invariant Extends(visited2, visited)
      invariant NewWithinCutoff(visited2, visited, goal, cutoff, size)
      invariant forall e :: e in queue ==> Queued(e, start, goal, visited2, size)
      invariant start == goal || goal in visited2 ==> exists e :: e in queue && LastStep(e.sr) == goal
      decreases GridCells(size) - visited2.Keys, |queue|
    {
      ghost var before := queue;
      var informed, rest := Pop(queue);
      assert Queued(informed, start, goal, visited2, size);
      if LastStep(informed.sr) == goal {
        found := Some(informed.sr);
        return;
      }
      ghost var visited1 := visited2;
      queue, visited2 := Expand(avail, size, start, goal, cutoff, informed, rest, visited2);
      SearchStep(avail, size, start, goal, cutoff, visited, before, informed, rest, visited1, queue, visited2);
    }
    found := None;
  }

  /** After one expansion the search invariants hold again, and either a
      cell was recorded or the queue is one node shorter. */
  lemma SearchStep(avail: Position -> seq<Direction>, size: Position, start: Position, goal: Position,
                   cutoff: int, visited: map<Position, SearchResult>, before: seq<Informed>,
                   informed: Informed, rest: seq<Informed>,
                   visited1: map<Position, SearchResult>, queue: seq<Informed>,
                   visited2: map<Position, SearchResult>)
    requires ValidSize(size)
    requires Recorded(visited1, start, avail, size) && Extends(visited1, visited)
    requires NewWithinCutoff(visited1, visited, goal, cutoff, size)
    requires forall e :: e in before ==> Queued(e, start, goal, visited1, size)
    requires start == goal || goal in visited1 ==> exists e :: e in before && LastStep(e.sr) == goal
    requires forall e :: e in before && e != informed ==> e in rest
    requires forall e :: e in rest ==> e in before
    requires |rest| == |before| - 1 && LastStep(informed.sr) != goal
    requires Expanding(rest, visited1, queue, visited2, start, goal, cutoff, avail, size)
    ensures Recorded(visited2, start, avail, size) && Extends(visited2, visited)
    ensures NewWithinCutoff(visited2, visited, goal, cutoff, size)
    ensures forall e :: e in queue ==> Queued(e, start, goal, visited2, size)
    ensures start == goal || goal in visited2 ==> exists e :: e in queue && LastStep(e.sr) == goal
    ensures visited2.Keys <= GridCells(size)
    ensures GridCells(size) - visited2.Keys < GridCells(size) - visited1.Keys ||
            (visited2.Keys == visited1.Keys && |queue| < |before|)
  {
    assert Extends(visited2, visited1);
    assert NewWithinCutoff(visited2, visited, goal, cutoff, size) by {
      forall k | k in visited2 && k !in visited
        ensures OrderLength(visited2[k]) + Manhattan(k, goal, size) <= cutoff
      {
        if k in visited1 {
          assert visited2[k] == visited1[k];
        }
      }
    }
    forall e | e in queue
      ensures Queued(e, start, goal, visited2, size)
    {
      if e in rest {
        assert e in before;
        QueuedExtends(e, start, goal, visited1, visited2, size);
      }
    }
    if start == goal || goal in visited1 {
      var e :| e in before && LastStep(e.sr) == goal;
      assert e in rest;
      assert e in queue[..|rest|];
    }
    assert visited2.Keys <= GridCells(size);
    if visited2.Keys != visited1.Keys {
      var k :| k in visited2.Keys && k !in visited1.Keys;
      assert k in GridCells(size) - visited1.Keys;
    }
  }

  /** `pop`: the greatest node and the queue without it. */
  method Pop(queue: seq<Informed>) returns (top: Informed, rest: seq<Informed>)
    requires queue != []
    ensures top in queue && multiset(queue) == multiset(rest) + multiset{top}
    ensures forall e :: e in queue ==> CmpInformed(e, top) != Greater
    ensures forall e :: e in rest ==> e in queue
    ensures forall e :: e in queue && e != top ==> e in rest
    ensures |rest| == |queue| - 1
  {
    var m := MaxIndex(queue);
    top := queue[m];
    rest := queue[..m] + queue[m + 1..];
    assert queue == queue[..m] + [top] + queue[m + 1..];
  }

  /** The initial queue: the start path and every recorded path, the latter
      in the map's iteration order, which is left open. */
  method QueueRecorded(avail: Position -> seq<Direction>, size: Position, start: Position, goal: Position,
                       visited: map<Position, SearchResult>)
    returns (queue: seq<Informed>)
    requires ValidSize(size) && Recorded(visited, start, avail, size)
    ensures forall e :: e in queue ==> Queued(e, start, goal, visited, size)
    ensures start == goal || goal in visited ==> exists e :: e in queue && LastStep(e.sr) == goal
  {
    queue := [InformedNew(Start(start), goal, size)];
    var pending := visited.Keys;
    while pending != {}
      invariant pending <= visited.Keys
      invariant forall e :: e in queue ==> Queued(e, start, goal, visited, size)
      invariant |queue| > 0 && LastStep(queue[0].sr) == start
      invariant goal in visited.Keys - pending ==> exists e :: e in queue && LastStep(e.sr) == goal
      decreases pending
    {
      var k :| k in pending;
      queue := queue + [InformedNew(visited[k], goal, size)];
      assert queue[|queue| - 1].sr == visited[k];
      pending := pending - {k};
    }
    assert queue[0] in queue;
  }

  /**
   * One expansion of the popped node: for each offered direction, in the
   * order the world lists them, the step is recorded and queued when its
   * cell is not recorded yet and its total cost is within the cutoff.
   * Afterwards every offered neighbour is recorded or too costly.
   */
  method Expand(avail: Position -> seq<Direction>, size: Position, start: Position, goal: Position,
                cutoff: int, informed: Informed, queue: seq<Informed>, visited: map<Position, SearchResult>)
    returns (queue2: seq<Informed>, visited2: map<Position, SearchResult>)
    requires ValidSize(size) && InGrid(start, size)
    requires Recorded(visited, start, avail, size)
    requires Queued(informed, start, goal, visited, size)
    ensures Expanding(queue, visited, queue2, visited2, start, goal, cutoff, avail, size)
    ensures forall d :: d in avail(LastStep(informed.sr)) ==> Covered(informed, d, visited2, goal, cutoff, size)
  {
    var last := LastStep(informed.sr);
    assert IsPath(informed.sr, avail, size) && AllInGrid(informed.sr, size) by {
      if informed.sr != Start(start) {
        assert visited[last] == informed.sr;
      }
    }
    var dirs := avail(last);
    queue2, visited2 := queue, visited;
    for j := 0 to |dirs|
      invariant Expanding(queue, visited, queue2, visited2, start, goal, cutoff, avail, size)
      invariant forall i :: 0 <= i < j ==> Covered(informed, dirs[i], visited2, goal, cutoff, size)
    {
      ghost var visited1 := visited2;
      queue2, visited2 := Consider(avail, size, start, goal, cutoff, informed, dirs[j], queue, visited,
                                   queue2, visited2);
      CoveredPrefix(informed, dirs, j, visited1, visited2, goal, cutoff, size);
    }
    assert forall d :: d in dirs ==> exists i :: 0 <= i < |dirs| && dirs[i] == d;
  }

  /** The step from `informed` towards `d` is recorded, or beyond the cutoff. */
  ghost predicate Covered(informed: Informed, d: Direction, visited: map<Position, SearchResult>,
                          goal: Position, cutoff: int, size: Position)
    requires ValidSize(size)
  {
    Neighbour(LastStep(informed.sr), d, size) in visited || TotalCost(GoForward(informed, d, goal, size)) > cutoff
  }

  lemma CoveredExtends(informed: Informed, d: Direction, visited: map<Position, SearchResult>,
                       visited2: map<Position, SearchResult>, goal: Position, cutoff: int, size: Position)
    requires ValidSize(size) && Covered(informed, d, visited, goal, cutoff, size) && Extends(visited2, visited)
    ensures Covered(informed, d, visited2, goal, cutoff, size)
  {
  }

  lemma CoveredPrefix(informed: Informed, dirs: seq<Direction>, j: nat, visited: map<Position, SearchResult>,
                      visited2: map<Position, SearchResult>, goal: Position, cutoff: int, size: Position)
    requires ValidSize(size) && j < |dirs| && Extends(visited2, visited)
    requires forall i :: 0 <= i < j ==> Covered(informed, dirs[i], visited, goal, cutoff, size)
    requires Covered(informed, dirs[j], visited2, goal, cutoff, size)
    ensures forall i :: 0 <= i < j + 1 ==> Covered(informed, dirs[i], visited2, goal, cutoff, size)
  {
    forall i | 0 <= i < j
      ensures Covered(informed, dirs[i], visited2, goal, cutoff, size)
    {
      CoveredExtends(informed, dirs[i], visited, visited2, goal, cutoff, size);
    }
  }

  /** One direction of an expansion. */
  method Consider(avail: Position -> seq<Direction>, size: Position, start: Position, goal: Position,
                  cutoff: int, informed: Informed, d: Direction,
                  ghost queue: seq<Informed>, ghost visited: map<Position, SearchResult>,
                  queue1: seq<Informed>, visited1: map<Position, SearchResult>)
    returns (queue2: seq<Informed>, visited2: map<Position, SearchResult>)
    requires ValidSize(size) && InGrid(start, size)
    requires FirstStep(informed.sr) == start && IsPath(informed.sr, avail, size) && AllInGrid(informed.sr, size)
    requires d in avail(LastStep(informed.sr))
    requires Expanding(queue, visited, queue1, visited1, start, goal, cutoff, avail, size)
    ensures Expanding(queue, visited, queue2, visited2, start, goal, cutoff, avail, size)
    ensures Extends(visited2, visited1)
    ensures Covered(informed, d, visited2, goal, cutoff, size)
  {
    var targeted := GoForward(informed, d, goal, size);
    var step := LastStep(targeted.sr);
    queue2, visited2 := queue1, visited1;
    if step !in visited1 && TotalCost(targeted) <= cutoff {
      RecordStep(avail, size, start, informed.sr, d);
      visited2 := visited1[step := targeted.sr];
      queue2 := queue1 + [targeted];
      RecordKeepsExpanding(queue, visited, queue1, visited1, targeted, start, goal, cutoff, avail, size);
    }
  }

  /** Recording and queueing a new in-cutoff path keeps an expansion's facts. */
  lemma RecordKeepsExpanding(queue: seq<Informed>, visited: map<Position, SearchResult>,
                             queue1: seq<Informed>, visited1: map<Position, SearchResult>, targeted: Informed,
                             start: Position, goal: Position, cutoff: int,
                             avail: Position -> seq<Direction>, size: Position)
    requires ValidSize(size)
    requires Expanding(queue, visited, queue1, visited1, start, goal, cutoff, avail, size)
    requires LastStep(targeted.sr) !in visited1 && TotalCost(targeted) <= cutoff
    requires targeted.heuristic == Manhattan(LastStep(targeted.sr), goal, size)
    requires FirstStep(targeted.sr) == start && IsPath(targeted.sr, avail, size) && AllInGrid(targeted.sr, size)
    ensures var visited2 := visited1[LastStep(targeted.sr) := targeted.sr];
      Expanding(queue, visited, queue1 + [targeted], visited2, start, goal, cutoff, avail, size)
  {
    var step := LastStep(targeted.sr);
    var visited2 := visited1[step := targeted.sr];
    var queue2 := queue1 + [targeted];
    assert Recorded(visited2, start, avail, size);
    assert Extends(visited2, visited1) && Extends(visited2, visited);
    assert NewWithinCutoff(visited2, visited, goal, cutoff, size) by {
      assert OrderLength(targeted.sr) + Manhattan(step, goal, size) <= cutoff;
    }
    assert queue2[..|queue|] == queue by {
      assert queue2[..|queue1|] == queue1;
    }
    assert Queued(targeted, start, goal, visited2, size);
    forall e | e in queue2
      ensures e in queue || Queued(e, start, goal, visited2, size)
    {
      if e != targeted {
        assert e in queue1;
        if e !in queue {
          QueuedExtends(e, start, goal, visited1, visited2, size);
        }
      }
    }
    forall k | k in visited2 && k !in visited
      ensures exists e :: e in queue2 && LastStep(e.sr) == k
    {
      if k != step {
        var e :| e in queue1 && LastStep(e.sr) == k;
        assert e in queue2;
      } else {
        assert targeted in queue2;
      }
    }
    assert step in visited2.Keys && step !in visited.Keys;
  }

  /** A step in an offered direction extends a recorded path to a recorded
      path. */
  lemma RecordStep(avail: Position -> seq<Direction>, size: Position, start: Position,
                   sr: SearchResult, d: Direction)
    requires ValidSize(size) && FirstStep(sr) == start
    requires IsPath(sr, avail, size) && AllInGrid(sr, size)
    requires d in avail(LastStep(sr))
    ensures var r := AddStep(sr, Neighbour(LastStep(sr), d, size));
      && FirstStep(r) == start && IsPath(r, avail, size) && AllInGrid(r, size)
  {
    var q := Neighbour(LastStep(sr), d, size);
    var r := AddStep(sr, q);
    assert Offered(LastStep(sr), q, avail, size);
    forall i | 0 <= i < |r| - 1
      ensures Offered(r[i], r[i + 1], avail, size)
    {
      if i < |sr| - 1 {
        assert r[i] == sr[i] && r[i + 1] == sr[i + 1];
      }
    }
  }

  // ---------------------------------------------------------------------
  // search

  /** A result as the search reports it: a walk from a source to the
      destination, within the cutoff, staying in the grid. */
  ghost predicate Reaches(r: SearchResult, from: set<Position>, to: Position, cutoff: int, size: Position)
    requires ValidSize(size)
  {
    FirstStep(r) in from && LastStep(r) == to && OrderLength(r) <= cutoff && IsWalk(r, size) && AllInGrid(r, size)
  }

  /** The greatest `order_length` among the results. */
  function MaxLength(results: seq<SearchResult>): (m: nat)
    requires results != []
    ensures forall r :: r in results ==> OrderLength(r) <= m
    ensures exists r :: r in results && OrderLength(r) == m
  {
    if |results| == 1 then OrderLength(results[0])
    else
      var rest := MaxLength(results[1..]);
      assert forall r :: r in results[1..] ==> r in results;
      assert forall r :: r in results ==> r == results[0] || r in results[1..];
      if OrderLength(results[0]) > rest then OrderLength(results[0]) else rest
  }

  /** `into_sorted_vec`, `reverse` and `truncate`: the results by the
      heap's ordering, greatest (shortest) first, cut to `n`. */
  function ShortestResults(results: seq<SearchResult>, n: nat): seq<SearchResult>
  {
    var s := Reversed(Sort(results, CmpSearchResult));
    if n < |s| then s[..n] else s
  }

  /** Sorting by the heap's ordering and reversing puts the results in
      nondecreasing length. */
  lemma SortedByLength(results: seq<SearchResult>)
    ensures var s := Reversed(Sort(results, CmpSearchResult));
      && multiset(s) == multiset(results)
      && forall i, j :: 0 <= i < j < |s| ==> OrderLength(s[i]) <= OrderLength(s[j])
  {
    CmpSearchResultTotal();
    SortAscending(results, CmpSearchResult);
    ReversedDescending(Sort(results, CmpSearchResult), CmpSearchResult);
    ReversedMultiset(Sort(results, CmpSearchResult));
    var s := Reversed(Sort(results, CmpSearchResult));
    forall i, j | 0 <= i < j < |s|
      ensures OrderLength(s[i]) <= OrderLength(s[j])
    {
      CmpSearchResultLength(s[i], s[j]);
    }
  }

  /** Cutting a length-ordered list keeps results no longer than the dropped ones. */
  lemma PrefixIsShortest(s: seq<SearchResult>, k: nat, results: seq<SearchResult>)
    requires k <= |s| && multiset(s) == multiset(results)
    requires forall i, j :: 0 <= i < j < |s| ==> OrderLength(s[i]) <= OrderLength(s[j])
    ensures multiset(s[..k]) <= multiset(results)
    ensures forall i, j :: 0 <= i < j < k ==> OrderLength(s[..k][i]) <= OrderLength(s[..k][j])
    ensures forall a, b :: a in s[..k] && b in multiset(results) - multiset(s[..k]) ==>
      OrderLength(a) <= OrderLength(b)
  {
    PrefixRest(s, k);
    SplitIsOrdered(s, k);
    PrefixOrdered(s, k);
  }

  /** What a cut leaves behind is the rest of the list. */
  lemma PrefixRest<T>(s: seq<T>, k: nat)
    requires k <= |s|
    ensures multiset(s[..k]) <= multiset(s)
    ensures forall b :: b in multiset(s) - multiset(s[..k]) ==> b in s[k..]
  {
    assert s == s[..k] + s[k..];
    assert multiset(s) - multiset(s[..k]) == multiset(s[k..]) by {
      assert multiset(s) == multiset(s[..k]) + multiset(s[k..]);
    }
    forall b | b in multiset(s[k..])
      ensures b in s[k..]
    {
    }
  }

  lemma PrefixOrdered(s: seq<SearchResult>, k: nat)
    requires k <= |s|
    requires forall i, j :: 0 <= i < j < |s| ==> OrderLength(s[i]) <= OrderLength(s[j])
    ensures forall i, j :: 0 <= i < j < k ==> OrderLength(s[..k][i]) <= OrderLength(s[..k][j])
  {
    forall i, j | 0 <= i < j < k
      ensures OrderLength(s[..k][i]) <= OrderLength(s[..k][j])
    {
      assert s[..k][i] == s[i] && s[..k][j] == s[j];
    }
  }

  /** In a length-ordered list, nothing before the cut is longer than
      anything after it. */
  lemma SplitIsOrdered(s: seq<SearchResult>, k: nat)
    requires k <= |s|
    requires forall i, j :: 0 <= i < j < |s| ==> OrderLength(s[i]) <= OrderLength(s[j])
    ensures forall a, b :: a in s[..k] && b in s[k..] ==> OrderLength(a) <= OrderLength(b)
  {
    forall a, b | a in s[..k] && b in s[k..]
      ensures OrderLength(a) <= OrderLength(b)
    {
      var i :| 0 <= i < k && s[..k][i] == a;
      var j :| 0 <= j < |s| - k && s[k..][j] == b;
      assert s[i] == a && s[k + j] == b;
    }
  }

  /** The kept results are a sub-multiset of all results, in nondecreasing
      length, as many as `n` allows, and none is longer than a dropped one. */
  lemma ShortestResultsKeepsShortest(results: seq<SearchResult>, n: nat)
    ensures var out := ShortestResults(results, n);
      && |out| == (if n < |results| then n else |results|)
      && multiset(out) <= multiset(results)
      && (forall i, j :: 0 <= i < j < |out| ==> OrderLength(out[i]) <= OrderLength(out[j]))
      && (forall a, b :: a in out && b in multiset(results) - multiset(out) ==> OrderLength(a) <= OrderLength(b))
  {
    var s := Reversed(Sort(results, CmpSearchResult));
    SortedByLength(results);
    var k := if n < |s| then n else |s|;
    var out := ShortestResults(results, n);
    assert out == s[..k];
    PrefixIsShortest(s, k, results);
  }

  /** The start node of every source, in the set's iteration order, which
      is left open. */
  method StartNodes(from: set<Position>, to: Position, size: Position) returns (nodes: seq<Informed>)
    ensures |nodes| == |from|
    ensures forall e :: e in nodes ==> exists p :: p in from && e == InformedNew(Start(p), to, size)
    ensures forall p :: p in from ==> InformedNew(Start(p), to, size) in nodes
  {
    nodes := [];
    var rest := from;
    while rest != {}
      invariant rest <= from && |nodes| + |rest| == |from|
      invariant forall e :: e in nodes ==> exists p :: p in from && e == InformedNew(Start(p), to, size)
      invariant forall p :: p in from - rest ==> InformedNew(Start(p), to, size) in nodes
      decreases rest
    {
      var f :| f in rest;
      nodes := nodes + [InformedNew(Start(f), to, size)];
      rest := rest - {f};
    }
  }

  /** The start nodes sorted by `sort_unstable` and `reverse`: the greatest,
      i.e. the cheapest, first. Their total cost never decreases. */
  lemma SortedSources(nodes: seq<Informed>)
    ensures var sorted := Reversed(Sort(nodes, CmpInformed));
      && multiset(sorted) == multiset(nodes)
      && forall i, j :: 0 <= i < j < |sorted| ==> TotalCost(sorted[i]) <= TotalCost(sorted[j])
  {
    CmpInformedTotal();
    SortAscending(nodes, CmpInformed);
    ReversedDescending(Sort(nodes, CmpInformed), CmpInformed);
    ReversedMultiset(Sort(nodes, CmpInformed));
    var sorted := Reversed(Sort(nodes, CmpInformed));
    forall i, j | 0 <= i < j < |sorted|
      ensures TotalCost(sorted[i]) <= TotalCost(sorted[j])
    {
      CmpInformedPriority(sorted[i], sorted[j]);
    }
  }

  /** What the source loop keeps after trying the first `i` sorted nodes. */
  ghost predicate Progress(sorted: seq<Informed>, i: nat, visited: map<Position, SearchResult>, maxCost: int,
                           results: seq<SearchResult>, tried: seq<Position>,
                           from: set<Position>, to: Position, cutoff: nat, avail: Position -> seq<Direction>,
                           size: Position)
    requires ValidSize(size) && i <= |sorted|
  {
    && Recorded(visited, to, avail, size)
    && (forall k :: k in visited ==> OrderLength(visited[k]) <= cutoff)
    && maxCost <= cutoff
    && |results| <= i && |tried| <= i
    && (forall r :: r in results ==> Reaches(r, from, to, cutoff, size))
    && (forall t :: t in tried ==> t in from && Manhattan(t, to, size) <= cutoff)
    && (forall a, b :: 0 <= a < b < |tried| ==> Manhattan(tried[a], to, size) <= Manhattan(tried[b], to, size))
    && (i > 0 ==> forall t :: t in tried ==> Manhattan(t, to, size) <= TotalCost(sorted[i - 1]))
    && (forall k :: 0 <= k < i ==> FirstStep(sorted[k].sr) in tried || TotalCost(sorted[k]) > maxCost)
  }

  /**
   * `RepeatedAStar::search`: sources are tried cheapest lower bound first,
   * each by a search from the destination that shares the visited map; a
   * source whose lower bound exceeds `maxCost` is skipped; once the quota
   * is met `maxCost` drops to the longest result found. The results come
   * out shortest first, cut to the quota.
   *
   * `found` is every result before the cut, `tried` the sources searched,
   * in order, and `maxCost` the final bound.
   */
  method Search(avail: Position -> seq<Direction>, size: Position, from: set<Position>, to: Position,
                maxResultLen: nat, cutoff: nat)
    returns (out: seq<SearchResult>, ghost found: seq<SearchResult>, ghost tried: seq<Position>,
             ghost maxCost: int)
    requires ValidSize(size) && InGrid(to, size)
    requires forall p :: p in from ==> InGrid(p, size)
    ensures |out| <= maxResultLen && |out| <= |from|
    ensures forall r :: r in out ==> Reaches(r, from, to, cutoff, size)
    ensures forall i, j :: 0 <= i < j < |out| ==> OrderLength(out[i]) <= OrderLength(out[j])
    ensures multiset(out) <= multiset(found) && |out| == (if maxResultLen < |found| then maxResultLen else |found|)
    ensures forall a, b :: a in out && b in multiset(found) - multiset(out) ==> OrderLength(a) <= OrderLength(b)
    ensures forall r :: r in found ==> Reaches(r, from, to, cutoff, size)
    ensures forall t :: t in tried ==> t in from && Manhattan(t, to, size) <= cutoff
    ensures forall a, b :: 0 <= a < b < |tried| ==> Manhattan(tried[a], to, size) <= Manhattan(tried[b], to, size)
    ensures forall p :: p in from ==> p in tried || Manhattan(p, to, size) > maxCost
    ensures maxCost <= cutoff
    ensures maxResultLen <= |found| && found != [] ==> maxCost <= MaxLength(found)
  {
    var nodes := StartNodes(from, to, size);
    SortedSources(nodes);
    var sorted := Reversed(Sort(nodes, CmpInformed));
    assert forall e :: e in sorted ==> e in nodes by {
      forall e | e in sorted
        ensures e in nodes
      {
        assert e in multiset(sorted);
      }
    }
    var visited: map<Position, SearchResult> := map[];
    var cost: int := cutoff;
    var results: seq<SearchResult> := [];
    tried := [];
    for i := 0 to |sorted|
      invariant Progress(sorted, i, visited, cost, results, tried, from, to, cutoff, avail, size)
      invariant maxResultLen <= |results| && results != [] ==> cost <= MaxLength(results)
    {
      visited, cost, results, tried :=
        TrySource(avail, size, from, to, maxResultLen, cutoff, sorted, i, visited, cost, results, tried);
    }
    out := ShortestResults(results, maxResultLen);
    ShortestResultsKeepsShortest(results, maxResultLen);
    found, maxCost := results, cost;
    SubMultisetMembers(out, results);
    EverySourceConsidered(sorted, nodes, visited, cost, results, tried, from, to, cutoff, avail, size);
  }

  lemma SubMultisetMembers(out: seq<SearchResult>, results: seq<SearchResult>)
    requires multiset(out) <= multiset(results)
    ensures forall r :: r in out ==> r in results
  {
    forall r | r in out
      ensures r in results
    {
      assert r in multiset(out);
    }
  }

  /** After the loop, every source was searched or exceeded the final bound. */
  lemma EverySourceConsidered(sorted: seq<Informed>, nodes: seq<Informed>, visited: map<Position, SearchResult>,
                              cost: int, results: seq<SearchResult>, tried: seq<Position>,
                              from: set<Position>, to: Position, cutoff: nat,
                              avail: Position -> seq<Direction>, size: Position)
    requires ValidSize(size)
    requires Progress(sorted, |sorted|, visited, cost, results, tried, from, to, cutoff, avail, size)
    requires multiset(sorted) == multiset(nodes)
    requires forall p :: p in from ==> InformedNew(Start(p), to, size) in nodes
    ensures forall p :: p in from ==> p in tried || Manhattan(p, to, size) > cost
  {
    forall p | p in from
      ensures p in tried || Manhattan(p, to, size) > cost
    {
      var e := InformedNew(Start(p), to, size);
      assert e in multiset(nodes);
      assert e in multiset(sorted);
      var k :| 0 <= k < |sorted| && sorted[k] == e;
    }
  }

  /** One turn of the source loop. */
  method TrySource(avail: Position -> seq<Direction>, size: Position, from: set<Position>, to: Position,
                   maxResultLen: nat, cutoff: nat, sorted: seq<Informed>, i: nat,
                   visited: map<Position, SearchResult>, cost: int, results: seq<SearchResult>,
                   ghost tried: seq<Position>)
    returns (visited2: map<Position, SearchResult>, cost2: int, results2: seq<SearchResult>,
             ghost tried2: seq<Position>)
    requires ValidSize(size) && InGrid(to, size) && i < |sorted|
    requires forall p :: p in from ==> InGrid(p, size)
    requires forall e :: e in sorted ==> exists p :: p in from && e == InformedNew(Start(p), to, size)
    requires forall a, b :: 0 <= a < b < |sorted| ==> TotalCost(sorted[a]) <= TotalCost(sorted[b])
    requires Progress(sorted, i, visited, cost, results, tried, from, to, cutoff, avail, size)
    requires maxResultLen <= |results| && results != [] ==> cost <= MaxLength(results)
    ensures Progress(sorted, i + 1, visited2, cost2, results2, tried2, from, to, cutoff, avail, size)
    ensures maxResultLen <= |results2| && results2 != [] ==> cost2 <= MaxLength(results2)
  {
    var f := sorted[i];
    assert f in sorted;
    var p :| p in from && f == InformedNew(Start(p), to, size);
    visited2, cost2, results2, tried2 := visited, cost, results, tried;
    if cost < TotalCost(f) {
      SkipKeepsProgress(sorted, i, visited, cost, results, tried, from, to, cutoff, avail, size);
      return;
    }
    tried2 := tried + [p];
    visited2, results2 := SearchSource(avail, size, from, to, cutoff, p, cost, visited, results);
    if maxResultLen <= |results2| && results2 != [] {
      var m := MaxLength(results2);
      cost2 := if cost2 < m then cost2 else m;
    }
    SearchKeepsProgress(sorted, i, visited, visited2, cost, cost2, results, results2, tried, p,
                        from, to, cutoff, avail, size);
  }

  /** The search towards source `p` within bound `cost`; a path found is
      reversed and added to the results. */
  method SearchSource(avail: Position -> seq<Direction>, size: Position, from: set<Position>, to: Position,
                      cutoff: nat, p: Position, cost: int, visited: map<Position, SearchResult>,
                      results: seq<SearchResult>)
    returns (visited2: map<Position, SearchResult>, results2: seq<SearchResult>)
    requires ValidSize(size) && InGrid(to, size) && InGrid(p, size) && p in from && cost <= cutoff
    requires Recorded(visited, to, avail, size)
    requires forall k :: k in visited ==> OrderLength(visited[k]) <= cutoff
    requires forall r :: r in results ==> Reaches(r, from, to, cutoff, size)
    ensures Recorded(visited2, to, avail, size)
    ensures forall k :: k in visited2 ==> OrderLength(visited2[k]) <= cutoff
    ensures results <= results2 && |results2| <= |results| + 1
    ensures forall r :: r in results2 ==> Reaches(r, from, to, cutoff, size)
  {
    var r;
    r, visited2 := SingleSearch(avail, size, to, p, cost, visited);
    VisitedWithinCutoff(visited, visited2, p, cost, cutoff, size);
    results2 := results;
    if r.Some? {
      ResultReaches(r.value, p, from, to, cutoff, visited2, avail, size);
      results2 := results + [ReverseResult(r.value)];
    }
  }

  /** A skipped source leaves the state as it was. */
  lemma SkipKeepsProgress(sorted: seq<Informed>, i: nat, visited: map<Position, SearchResult>, cost: int,
                          results: seq<SearchResult>, tried: seq<Position>,
                          from: set<Position>, to: Position, cutoff: nat, avail: Position -> seq<Direction>,
                          size: Position)
    requires ValidSize(size) && i < |sorted|
    requires forall a, b :: 0 <= a < b < |sorted| ==> TotalCost(sorted[a]) <= TotalCost(sorted[b])
    requires Progress(sorted, i, visited, cost, results, tried, from, to, cutoff, avail, size)
    requires cost < TotalCost(sorted[i])
    ensures Progress(sorted, i + 1, visited, cost, results, tried, from, to, cutoff, avail, size)
  {
    if i > 0 {
      assert TotalCost(sorted[i - 1]) <= TotalCost(sorted[i]);
    }
  }

  /** Entries recorded by a search towards an in-grid source are within
      its bound, hence within the cutoff. */
  lemma VisitedWithinCutoff(visited: map<Position, SearchResult>, visited2: map<Position, SearchResult>,
                            p: Position, cost: int, cutoff: nat, size: Position)
    requires ValidSize(size) && InGrid(p, size) && cost <= cutoff
    requires forall k :: k in visited ==> OrderLength(visited[k]) <= cutoff
    requires forall k :: k in visited2 ==> InGrid(k, size)
    requires Extends(visited2, visited) && NewWithinCutoff(visited2, visited, p, cost, size)
    ensures forall k :: k in visited2 ==> OrderLength(visited2[k]) <= cutoff
  {
    forall k | k in visited2
      ensures OrderLength(visited2[k]) <= cutoff
    {
      if k !in visited {
        ManhattanBounds(k, p, size);
      }
    }
  }

  /** A path found from the destination to a source, reversed, is a result. */
  lemma ResultReaches(found: SearchResult, p: Position, from: set<Position>, to: Position, cutoff: nat,
                      visited: map<Position, SearchResult>, avail: Position -> seq<Direction>, size: Position)
    requires ValidSize(size) && p in from
    requires FirstStep(found) == to && LastStep(found) == p
    requires IsPath(found, avail, size) && AllInGrid(found, size)
    requires found == Start(to) || (p in visited && visited[p] == found)
    requires forall k :: k in visited ==> OrderLength(visited[k]) <= cutoff
    ensures Reaches(ReverseResult(found), from, to, cutoff, size)
  {
    ReversedPathIsWalk(found, avail, size);
  }

  /** A searched source keeps the loop's facts. */
  lemma SearchKeepsProgress(sorted: seq<Informed>, i: nat, visited: map<Position, SearchResult>,
                            visited2: map<Position, SearchResult>, cost: int, cost2: int,
                            results: seq<SearchResult>, results2: seq<SearchResult>, tried: seq<Position>,
                            p: Position, from: set<Position>, to: Position, cutoff: nat,
                            avail: Position -> seq<Direction>, size: Position)
    requires ValidSize(size) && i < |sorted| && InGrid(p, size) && InGrid(to, size) && p in from
    requires forall a, b :: 0 <= a < b < |sorted| ==> TotalCost(sorted[a]) <= TotalCost(sorted[b])
    requires Progress(sorted, i, visited, cost, results, tried, from, to, cutoff, avail, size)
    requires sorted[i] == InformedNew(Start(p), to, size) && TotalCost(sorted[i]) <= cost
    requires Recorded(visited2, to, avail, size)
    requires forall k :: k in visited2 ==> OrderLength(visited2[k]) <= cutoff
    requires cost2 <= cost
    requires |results2| <= |results| + 1 && forall r :: r in results2 ==> Reaches(r, from, to, cutoff, size)
    ensures Progress(sorted, i + 1, visited2, cost2, results2, tried + [p], from, to, cutoff, avail, size)
  {
    ProgressStep(sorted, i, tried, p, to, size);
    forall k | 0 <= k < i + 1
      ensures FirstStep(sorted[k].sr) in tried + [p] || TotalCost(sorted[k]) > cost2
    {
      if k < i && FirstStep(sorted[k].sr) in tried {
        assert FirstStep(sorted[k].sr) in tried + [p];
      }
    }
  }

  /** The tried list stays ordered by distance. */
  lemma ProgressStep(sorted: seq<Informed>, i: nat, tried: seq<Position>, p: Position, to: Position, size: Position)
    requires i < |sorted| && |tried| <= i
    requires i > 0 ==> forall t :: t in tried ==> Manhattan(t, to, size) <= TotalCost(sorted[i - 1])
    requires forall a, b :: 0 <= a < b < |sorted| ==> TotalCost(sorted[a]) <= TotalCost(sorted[b])
    requires forall a, b :: 0 <= a < b < |tried| ==> Manhattan(tried[a], to, size) <= Manhattan(tried[b], to, size)
    requires TotalCost(sorted[i]) == Manhattan(p, to, size)
    ensures forall a, b :: 0 <= a < b < |tried + [p]| ==>
      Manhattan((tried + [p])[a], to, size) <= Manhattan((tried + [p])[b], to, size)
    ensures forall t :: t in tried + [p] ==> Manhattan(t, to, size) <= TotalCost(sorted[i])
  {
    if i > 0 {
      assert TotalCost(sorted[i - 1]) <= TotalCost(sorted[i]);
    }
    var s := tried + [p];
    forall a, b | 0 <= a < b < |s|
      ensures Manhattan(s[a], to, size) <= Manhattan(s[b], to, size)
    {
      if b == |tried| {
        assert s[a] in tried;
      } else {
        assert s[a] == tried[a] && s[b] == tried[b];
      }
    }
  }
}
