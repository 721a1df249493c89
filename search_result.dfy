/**
 * `SearchResult`, the path a search hands back: a non-empty list of cells,
 * from the first step to the last. Its type belongs to the search module
 * that is not part of this model; it is given the behaviour its callers rely
 * on (`start`, `add_step`, `first_step`, `last_step`, `reverse`,
 * `order_length`, `first_order`) and the ordering of
 * `strategy/search/repeated_a_star.rs`, which ranks shorter paths higher.
 */
module SearchResults {
  import opened Grid
  import opened Orderings

  datatype Option<T> = None | Some(value: T)

  type SearchResult = s: seq<Position> | |s| > 0 witness [Position(0, 0)]

  /** `start`: the path that stands on one cell. */
  function Start(p: Position): (r: SearchResult)
    ensures FirstStep(r) == LastStep(r) == p && OrderLength(r) == 0
  {
    [p]
  }

  /** `add_step`: one more cell at the end. */
  function AddStep(sr: SearchResult, p: Position): (r: SearchResult)
    ensures FirstStep(r) == FirstStep(sr) && LastStep(r) == p
    ensures OrderLength(r) == OrderLength(sr) + 1
    ensures r[..|sr|] == sr
  {
    sr + [p]
  }

  function FirstStep(sr: SearchResult): Position
  {
    sr[0]
  }

  function LastStep(sr: SearchResult): Position
  {
    sr[|sr| - 1]
  }

  /** `order_length`: the number of moves, one less than the number of cells. */
  function OrderLength(sr: SearchResult): nat
  {
    |sr| - 1
  }

  /** `reverse`: the same cells walked the other way. */
  function ReverseResult(sr: SearchResult): (r: SearchResult)
    ensures FirstStep(r) == LastStep(sr) && LastStep(r) == FirstStep(sr)
    ensures OrderLength(r) == OrderLength(sr)
    ensures forall i :: 0 <= i < |sr| ==> r[i] == sr[|sr| - 1 - i]
  {
    Reversed(sr)
  }

  /** Reversing twice gives the path back. */
  lemma ReverseResultInvolution(sr: SearchResult)
    ensures ReverseResult(ReverseResult(sr)) == sr
  {
  }

  /** `q` is one step from `p` in a direction the world offers at `p`. */
  ghost predicate Offered(p: Position, q: Position, avail: Position -> seq<Direction>, size: Position)
    requires ValidSize(size)
  {
    exists d :: d in avail(p) && Neighbour(p, d, size) == q
  }

  /** Every move of the path goes in a direction the world offered there. */
  ghost predicate IsPath(s: seq<Position>, avail: Position -> seq<Direction>, size: Position)
    requires ValidSize(size)
  {
    forall i :: 0 <= i < |s| - 1 ==> Offered(s[i], s[i + 1], avail, size)
  }

  /** `q` is one step from `p` in some direction. */
  ghost predicate Adjacent(p: Position, q: Position, size: Position)
    requires ValidSize(size)
  {
    exists d :: Neighbour(p, d, size) == q
  }

  /** Every move of the path is a single step in some direction. */
  ghost predicate IsWalk(s: seq<Position>, size: Position)
    requires ValidSize(size)
  {
    forall i :: 0 <= i < |s| - 1 ==> Adjacent(s[i], s[i + 1], size)
  }

  ghost predicate AllInGrid(s: seq<Position>, size: Position)
  {
    forall i :: 0 <= i < |s| ==> InGrid(s[i], size)
  }

  /** A path of in-grid cells, walked backwards, is still a walk: each move
      is undone by the opposite direction. */
  lemma ReversedPathIsWalk(s: SearchResult, avail: Position -> seq<Direction>, size: Position)
    requires ValidSize(size) && IsPath(s, avail, size) && AllInGrid(s, size)
    ensures IsWalk(ReverseResult(s), size)
  {
    var r := ReverseResult(s);
    forall i | 0 <= i < |r| - 1
      ensures Adjacent(r[i], r[i + 1], size)
    {
      var k := |s| - 2 - i;
      assert r[i] == s[k + 1] && r[i + 1] == s[k];
      StepUndone(s[k], s[k + 1], avail, size);
    }
  }

  lemma StepUndone(p: Position, q: Position, avail: Position -> seq<Direction>, size: Position)
    requires ValidSize(size) && InGrid(p, size) && Offered(p, q, avail, size)
    ensures Adjacent(q, p, size)
  {
    var d :| d in avail(p) && Neighbour(p, d, size) == q;
    StepBack(p, d, size);
    assert Neighbour(q, Opposite(d), size) == p;
  }

  /** The first direction, in the order North, South, East, West, that
      steps from `p` onto `q`. */
  function DirectionTowards(p: Position, q: Position, size: Position): (r: Option<Direction>)
    requires ValidSize(size)
    ensures r.Some? ==> Neighbour(p, r.value, size) == q
    ensures r.None? <==> forall d: Direction :: Neighbour(p, d, size) != q
  {
    if Neighbour(p, North, size) == q then Some(North)
    else if Neighbour(p, South, size) == q then Some(South)
    else if Neighbour(p, East, size) == q then Some(East)
    else if Neighbour(p, West, size) == q then Some(West)
    else None
  }

  /** `first_order`: the move from the first cell onto the second, if the
      path has a move and its first move is a single step. */
  function FirstOrder(sr: SearchResult, size: Position): (r: Option<Order>)
    requires ValidSize(size)
    ensures r.Some? ==> r.value.pos == FirstStep(sr) && |sr| >= 2 && TargetPos(r.value, size) == sr[1]
    ensures |sr| == 1 ==> r.None?
  {
    if |sr| < 2 then None
    else
      match DirectionTowards(sr[0], sr[1], size)
      case None => None
      case Some(d) => Some(Order(sr[0], d))
  }

  /** A walk with a move always has a first order. */
  lemma WalkHasFirstOrder(sr: SearchResult, size: Position)
    requires ValidSize(size) && IsWalk(sr, size) && |sr| >= 2
    ensures FirstOrder(sr, size).Some?
  {
    assert Adjacent(sr[0], sr[1], size);
    assert DirectionTowards(sr[0], sr[1], size).Some?;
  }

  // ---------------------------------------------------------------------
  // Ordering

  /** `Position`'s ordering: by row, then by column. */
  function CmpPos(a: Position, b: Position): Ordering
  {
    ThenWith(CmpInt(a.row, b.row), CmpInt(a.col, b.col))
  }

  /** The ordering of lists of cells: lexicographic, a proper prefix first. */
  function CmpSteps(s: seq<Position>, t: seq<Position>): Ordering
  {
    if s == [] then (if t == [] then Equal else Less)
    else if t == [] then Greater
    else ThenWith(CmpPos(s[0], t[0]), CmpSteps(s[1..], t[1..]))
  }

  /** `SearchResult::cmp`: the shorter path is the greater, ties broken by
      the reversed ordering of the cells. A max-heap thus pops the shortest. */
  function CmpSearchResult(a: SearchResult, b: SearchResult): Ordering
  {
    ThenWith(CmpInt(OrderLength(b), OrderLength(a)), CmpSteps(b, a))
  }

  lemma {:induction false} CmpStepsFlip(s: seq<Position>, t: seq<Position>)
    ensures CmpSteps(s, t) == Flip(CmpSteps(t, s))
    ensures CmpSteps(s, t) == Equal <==> s == t
  {
    if s != [] && t != [] {
      CmpStepsFlip(s[1..], t[1..]);
      assert s == [s[0]] + s[1..] && t == [t[0]] + t[1..];
    }
  }

  lemma {:induction false} CmpStepsTransitive(s: seq<Position>, t: seq<Position>, u: seq<Position>)
    requires CmpSteps(s, t) == Less && CmpSteps(t, u) == Less
    ensures CmpSteps(s, u) == Less
  {
    if s != [] && t != [] && u != [] {
      if CmpPos(s[0], t[0]) == Equal && CmpPos(t[0], u[0]) == Equal {
        CmpStepsTransitive(s[1..], t[1..], u[1..]);
      }
    }
  }

  /** The ordering of search results is total and consistent with equality. */
  lemma CmpSearchResultTotal()
    ensures TotalOrder(CmpSearchResult)
  {
    forall a: SearchResult, b: SearchResult
      ensures CmpSearchResult(a, b) == Flip(CmpSearchResult(b, a))
      ensures CmpSearchResult(a, b) == Equal <==> a == b
    {
      CmpStepsFlip(b, a);
    }
    forall a: SearchResult, b: SearchResult, c: SearchResult |
      CmpSearchResult(a, b) == Less && CmpSearchResult(b, c) == Less
      ensures CmpSearchResult(a, c) == Less
    {
      if OrderLength(a) == OrderLength(b) == OrderLength(c) {
        CmpStepsTransitive(c, b, a);
      }
    }
  }

  /** Under this ordering the greater result is never the longer one. */
  lemma CmpSearchResultLength(a: SearchResult, b: SearchResult)
    ensures CmpSearchResult(a, b) != Greater ==> OrderLength(b) <= OrderLength(a)
    ensures CmpSearchResult(a, b) != Less ==> OrderLength(a) <= OrderLength(b)
    ensures OrderLength(a) < OrderLength(b) ==> CmpSearchResult(a, b) == Greater
  {
  }
}
