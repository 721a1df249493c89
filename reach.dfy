/**
 * Disc-shaped masks (`reach.rs`): the offsets within a squared radius of
 * the origin, and their placement on the wrap-around world around a cell.
 *
 * The source bounds its loops by the rounded square root of `radius2`,
 * computed in floating point. The model takes that bound as a parameter
 * `reach` and requires only what the rounding guarantees: `reach` is at least
 * the integer square root, so that (reach + 1)^2 exceeds `radius2`.
 */
module Reach {
  import opened Grid
  import opened Orderings

  /** An offset: `x` along columns, `y` along rows. */
  datatype Coord = Coord(x: int, y: int)

  /** `reach` is no smaller than the integer square root of `radius2`. */
  predicate CoversRadius(radius2: nat, reach: nat)
  {
    (reach + 1) * (reach + 1) > radius2
  }

  predicate InDisc(c: Coord, radius2: nat)
  {
    c.y * c.y + c.x * c.x <= radius2
  }

  /** The disc's offsets in row `y`, for columns `x` up to `reach`. */
  function MaskRow(radius2: nat, reach: nat, y: int, x: int): seq<Coord>
    decreases reach + 1 - x
  {
    if x > reach then []
    else if InDisc(Coord(x, y), radius2) then [Coord(x, y)] + MaskRow(radius2, reach, y, x + 1)
    else MaskRow(radius2, reach, y, x + 1)
  }

  /** The disc's offsets in rows `y` up to `reach`, each row from `-reach`. */
  function MaskRows(radius2: nat, reach: nat, y: int): seq<Coord>
    decreases reach + 1 - y
  {
    if y > reach then []
    else MaskRow(radius2, reach, y, -(reach as int)) + MaskRows(radius2, reach, y + 1)
  }

  /** The mask `blank_mask_from_radius` builds. */
  function BlankMask(radius2: nat, reach: nat): seq<Coord>
  {
    MaskRows(radius2, reach, -(reach as int))
  }

  /** `blank_mask_from_radius`: `y` and then `x` run over `-reach..=reach`,
      and each offset within the disc is pushed. */
  method BlankMaskFromRadius(radius2: nat, reach: nat) returns (mask: seq<Coord>)
    requires CoversRadius(radius2, reach)
    ensures mask == BlankMask(radius2, reach)
  {
    mask := [];
    var y: int := -(reach as int);
    while y <= reach
      invariant -(reach as int) <= y <= reach + 1
      invariant mask + MaskRows(radius2, reach, y) == BlankMask(radius2, reach)
    {
      ghost var before := mask;
      var x: int := -(reach as int);
      while x <= reach
        invariant -(reach as int) <= x <= reach + 1
        invariant mask + MaskRow(radius2, reach, y, x) == before + MaskRow(radius2, reach, y, -(reach as int))
      {
        var abs := y * y + x * x;
        if abs <= radius2 {
          mask := mask + [Coord(x, y)];
        }
        x := x + 1;
      }
      assert mask == before + MaskRow(radius2, reach, y, -(reach as int));
      y := y + 1;
    }
  }

  // ---------------------------------------------------------------------
  // What the mask is

  lemma {:induction false} MaskRowMembers(radius2: nat, reach: nat, y: int, x0: int)
    ensures forall c :: c in MaskRow(radius2, reach, y, x0) <==>
      c.y == y && x0 <= c.x <= reach && InDisc(c, radius2)
    ensures forall i, j :: 0 <= i < j < |MaskRow(radius2, reach, y, x0)| ==>
      MaskRow(radius2, reach, y, x0)[i].x < MaskRow(radius2, reach, y, x0)[j].x
    decreases reach + 1 - x0
  {
    if x0 <= reach {
      MaskRowMembers(radius2, reach, y, x0 + 1);
      var row := MaskRow(radius2, reach, y, x0);
      var tail := MaskRow(radius2, reach, y, x0 + 1);
      if InDisc(Coord(x0, y), radius2) {
        forall i, j | 0 <= i < j < |row|
          ensures row[i].x < row[j].x
        {
          if i == 0 {
            assert row[j] in tail;
          } else {
            assert row[i] == tail[i - 1] && row[j] == tail[j - 1];
          }
        }
      }
    }
  }

  /** The offsets ordered `y` first, then `x`. */
  function CmpCoord(a: Coord, b: Coord): Ordering
  {
    ThenWith(CmpInt(a.y, b.y), CmpInt(a.x, b.x))
  }

  lemma {:induction false} MaskRowsMembers(radius2: nat, reach: nat, y0: int)
    ensures forall c :: c in MaskRows(radius2, reach, y0) <==>
      y0 <= c.y <= reach && -(reach as int) <= c.x <= reach && InDisc(c, radius2)
    ensures forall i, j :: 0 <= i < j < |MaskRows(radius2, reach, y0)| ==>
      CmpCoord(MaskRows(radius2, reach, y0)[i], MaskRows(radius2, reach, y0)[j]) == Less
    decreases reach + 1 - y0
  {
    if y0 <= reach {
      MaskRowMembers(radius2, reach, y0, -(reach as int));
      MaskRowsMembers(radius2, reach, y0 + 1);
      var head := MaskRow(radius2, reach, y0, -(reach as int));
      var tail := MaskRows(radius2, reach, y0 + 1);
      var all := head + tail;
      forall i, j | 0 <= i < j < |all|
        ensures CmpCoord(all[i], all[j]) == Less
      {
        if j < |head| {
          assert all[i] in head && all[j] in head;
        } else if i < |head| {
          assert all[i] in head && all[j] in tail;
        } else {
          assert all[i] == tail[i - |head|] && all[j] == tail[j - |head|];
        }
      }
    }
  }

  /** A number whose square is below (reach + 1)^2 lies in [-reach, reach]. */
  lemma SquareBound(v: int, reach: nat)
    requires v * v < (reach + 1) * (reach + 1)
    ensures -(reach as int) <= v <= reach
  {
    if v > reach {
      SquareMonotone(v, reach + 1);
    } else if v < -(reach as int) {
      SquareMonotone(-v, reach + 1);
    }
  }

  lemma SquareMonotone(a: int, b: int)
    requires a >= b >= 0
    ensures a * a >= b * b
  {
    assert a * a - b * b == (a - b) * (a + b);
  }

  /** The blank mask holds exactly the offsets within the disc of squared
      radius `radius2`. */
  lemma BlankMaskMembers(radius2: nat, reach: nat)
    requires CoversRadius(radius2, reach)
    ensures forall c :: c in BlankMask(radius2, reach) <==> InDisc(c, radius2)
  {
    MaskRowsMembers(radius2, reach, -(reach as int));
    forall c | InDisc(c, radius2)
      ensures -(reach as int) <= c.x <= reach && -(reach as int) <= c.y <= reach
    {
      SquareBound(c.x, reach);
      SquareBound(c.y, reach);
    }
  }

  /** The offsets come ordered by row and then by column, so each once. */
  lemma BlankMaskRowMajor(radius2: nat, reach: nat)
    ensures forall i, j :: 0 <= i < j < |BlankMask(radius2, reach)| ==>
      CmpCoord(BlankMask(radius2, reach)[i], BlankMask(radius2, reach)[j]) == Less
    ensures forall i, j :: 0 <= i < j < |BlankMask(radius2, reach)| ==>
      BlankMask(radius2, reach)[i] != BlankMask(radius2, reach)[j]
  {
    MaskRowsMembers(radius2, reach, -(reach as int));
    var m := BlankMask(radius2, reach);
    forall i, j | 0 <= i < j < |m|
      ensures m[i] != m[j]
    {
      assert CmpCoord(m[i], m[j]) == Less;
    }
  }

  /** The mask is symmetric under mirroring either axis. */
  lemma BlankMaskSymmetric(radius2: nat, reach: nat)
    requires CoversRadius(radius2, reach)
    ensures forall c :: c in BlankMask(radius2, reach) <==> Coord(-c.x, c.y) in BlankMask(radius2, reach)
    ensures forall c :: c in BlankMask(radius2, reach) <==> Coord(c.x, -c.y) in BlankMask(radius2, reach)
  {
    BlankMaskMembers(radius2, reach);
    forall v: int
      ensures (-v) * (-v) == v * v
    {
    }
  }

  /** The masks of the unit test: radius 0 is the origin alone, radius 1 a
      plus, radius 2 the 3 x 3 square. */
  lemma BlankMaskExamples()
    ensures BlankMask(0, 0) == [Coord(0, 0)]
    ensures BlankMask(1, 1) == [Coord(0, -1), Coord(-1, 0), Coord(0, 0), Coord(1, 0), Coord(0, 1)]
    ensures BlankMask(2, 1) ==
      [Coord(-1, -1), Coord(0, -1), Coord(1, -1),
       Coord(-1, 0), Coord(0, 0), Coord(1, 0),
       Coord(-1, 1), Coord(0, 1), Coord(1, 1)]
  {
  }

  /** The last mask of the unit test: radius 4 is a diamond of 13 offsets. */
  lemma BlankMaskDiamond()
    ensures BlankMask(4, 2) ==
      [Coord(0, -2),
       Coord(-1, -1), Coord(0, -1), Coord(1, -1),
       Coord(-2, 0), Coord(-1, 0), Coord(0, 0), Coord(1, 0), Coord(2, 0),
       Coord(-1, 1), Coord(0, 1), Coord(1, 1),
       Coord(0, 2)]
  {
  }

  // ---------------------------------------------------------------------
  // world_mask_from_blank

  /** Where an offset lands around `offset`, wrapped onto the world. */
  function Place(c: Coord, offset: Position, size: Position): Position
    requires ValidSize(size)
  {
    AsSizeForPos(size, c.y + offset.row, c.x + offset.col)
  }

  /** `world_mask_from_blank`: every offset shifted by `offset` (columns along
      `x`, rows along `y`), wrapped onto the world; cells hit twice count once. */
  function WorldMask(blank: seq<Coord>, offset: Position, size: Position): (r: set<Position>)
    requires ValidSize(size)
    ensures forall p :: p in r <==> exists c :: c in blank && Place(c, offset, size) == p
    ensures forall p :: p in r ==> InGrid(p, size)
    ensures |r| <= |blank|
  {
    PlacedAtMost(blank, offset, size);
    set c | c in blank :: Place(c, offset, size)
  }

  lemma {:induction false} PlacedAtMost(blank: seq<Coord>, offset: Position, size: Position)
    requires ValidSize(size)
    ensures |set c | c in blank :: Place(c, offset, size)| <= |blank|
  {
    if blank != [] {
      var init := blank[..|blank| - 1];
      var last := blank[|blank| - 1];
      PlacedAtMost(init, offset, size);
      assert blank == init + [last];
      assert (set c | c in blank :: Place(c, offset, size)) ==
             (set c | c in init :: Place(c, offset, size)) + {Place(last, offset, size)};
    }
  }

  /** The ant's own cell is always in its mask. */
  lemma WorldMaskHoldsCentre(radius2: nat, reach: nat, offset: Position, size: Position)
    requires ValidSize(size) && InGrid(offset, size) && CoversRadius(radius2, reach)
    ensures offset in WorldMask(BlankMask(radius2, reach), offset, size)
  {
    BlankMaskMembers(radius2, reach);
    assert Coord(0, 0) in BlankMask(radius2, reach);
    assert Place(Coord(0, 0), offset, size) == offset;
  }

  /** The placed cells, one offset after the other. */
  function PlaceAll(blank: seq<Coord>, offset: Position, size: Position): set<Position>
    requires ValidSize(size)
  {
    if blank == [] then {} else {Place(blank[0], offset, size)} + PlaceAll(blank[1..], offset, size)
  }

  lemma {:induction false} WorldMaskIsPlaceAll(blank: seq<Coord>, offset: Position, size: Position)
    requires ValidSize(size)
    ensures WorldMask(blank, offset, size) == PlaceAll(blank, offset, size)
  {
    if blank != [] {
      WorldMaskIsPlaceAll(blank[1..], offset, size);
      WorldMaskCons(blank, offset, size);
    }
  }

  lemma WorldMaskCons(blank: seq<Coord>, offset: Position, size: Position)
    requires ValidSize(size) && blank != []
    ensures WorldMask(blank, offset, size) == {Place(blank[0], offset, size)} + WorldMask(blank[1..], offset, size)
  {
    assert forall c :: c in blank <==> c == blank[0] || c in blank[1..] by {
      assert blank == [blank[0]] + blank[1..];
    }
  }

  /** The unit test's first mask: radius 0 on a 3 x 3 world is the ant's cell. */
  lemma WorldMaskPoint()
    ensures WorldMask(BlankMask(0, 0), Position(1, 1), Position(3, 3)) == {Position(1, 1)}
  {
    BlankMaskExamples();
    WorldMaskIsPlaceAll(BlankMask(0, 0), Position(1, 1), Position(3, 3));
  }

  /** The plus of squared radius 1. */
  const Plus := [Coord(0, -1), Coord(-1, 0), Coord(0, 0), Coord(1, 0), Coord(0, 1)]

  /** The diamond of squared radius 4. */
  const Diamond :=
    [Coord(0, -2),
     Coord(-1, -1), Coord(0, -1), Coord(1, -1),
     Coord(-2, 0), Coord(-1, 0), Coord(0, 0), Coord(1, 0), Coord(2, 0),
     Coord(-1, 1), Coord(0, 1), Coord(1, 1),
     Coord(0, 2)]

  lemma {:induction false} PlaceAllConcat(a: seq<Coord>, b: seq<Coord>, offset: Position, size: Position)
    requires ValidSize(size)
    ensures PlaceAll(a + b, offset, size) == PlaceAll(a, offset, size) + PlaceAll(b, offset, size)
  {
    if a == [] {
      assert a + b == b;
    } else {
      assert (a + b)[1..] == a[1..] + b;
      PlaceAllConcat(a[1..], b, offset, size);
    }
  }

  lemma DiamondTop()
    ensures PlaceAll([Coord(0, -2), Coord(-1, -1), Coord(0, -1), Coord(1, -1)], Position(2, 3), Position(5, 7)) ==
            {Position(0, 3), Position(1, 2), Position(1, 3), Position(1, 4)}
  {
    var at, world := Position(2, 3), Position(5, 7);
    assert PlaceAll([], at, world) == {};
    assert PlaceAll([Coord(1, -1)], at, world) == {Position(1, 4)};
    assert PlaceAll([Coord(0, -1), Coord(1, -1)], at, world) == {Position(1, 3), Position(1, 4)};
    assert PlaceAll([Coord(-1, -1), Coord(0, -1), Coord(1, -1)], at, world) ==
           {Position(1, 2), Position(1, 3), Position(1, 4)};
  }

  lemma DiamondMiddle()
    ensures PlaceAll([Coord(-2, 0), Coord(-1, 0), Coord(0, 0), Coord(1, 0), Coord(2, 0)], Position(2, 3), Position(5, 7)) ==
            {Position(2, 1), Position(2, 2), Position(2, 3), Position(2, 4), Position(2, 5)}
  {
    var at, world := Position(2, 3), Position(5, 7);
    assert PlaceAll([], at, world) == {};
    assert PlaceAll([Coord(2, 0)], at, world) == {Position(2, 5)};
    assert PlaceAll([Coord(1, 0), Coord(2, 0)], at, world) == {Position(2, 4), Position(2, 5)};
    assert PlaceAll([Coord(0, 0), Coord(1, 0), Coord(2, 0)], at, world) ==
           {Position(2, 3), Position(2, 4), Position(2, 5)};
    assert PlaceAll([Coord(-1, 0), Coord(0, 0), Coord(1, 0), Coord(2, 0)], at, world) ==
           {Position(2, 2), Position(2, 3), Position(2, 4), Position(2, 5)};
  }

  lemma DiamondBottom()
    ensures PlaceAll([Coord(-1, 1), Coord(0, 1), Coord(1, 1), Coord(0, 2)], Position(2, 3), Position(5, 7)) ==
            {Position(3, 2), Position(3, 3), Position(3, 4), Position(4, 3)}
  {
    var at, world := Position(2, 3), Position(5, 7);
    assert PlaceAll([], at, world) == {};
    assert PlaceAll([Coord(0, 2)], at, world) == {Position(4, 3)};
    assert PlaceAll([Coord(1, 1), Coord(0, 2)], at, world) == {Position(3, 4), Position(4, 3)};
    assert PlaceAll([Coord(0, 1), Coord(1, 1), Coord(0, 2)], at, world) ==
           {Position(3, 3), Position(3, 4), Position(4, 3)};
  }

  lemma DiamondPlaced()
    ensures PlaceAll(
      [Coord(0, -2), Coord(-1, -1), Coord(0, -1), Coord(1, -1), Coord(-2, 0), Coord(-1, 0), Coord(0, 0), Coord(1, 0), Coord(2, 0), Coord(-1, 1), Coord(0, 1), Coord(1, 1), Coord(0, 2)],
      Position(2, 3), Position(5, 7)) ==
            {Position(0, 3),
             Position(1, 2), Position(1, 3), Position(1, 4),
             Position(2, 1), Position(2, 2), Position(2, 3), Position(2, 4), Position(2, 5),
             Position(3, 2), Position(3, 3), Position(3, 4),
             Position(4, 3)}
  {
    var at, world := Position(2, 3), Position(5, 7);
    var top := [Coord(0, -2), Coord(-1, -1), Coord(0, -1), Coord(1, -1)];
    var middle := [Coord(-2, 0), Coord(-1, 0), Coord(0, 0), Coord(1, 0), Coord(2, 0)];
    var bottom := [Coord(-1, 1), Coord(0, 1), Coord(1, 1), Coord(0, 2)];
    assert top + middle + bottom ==
      [Coord(0, -2), Coord(-1, -1), Coord(0, -1), Coord(1, -1), Coord(-2, 0), Coord(-1, 0), Coord(0, 0), Coord(1, 0), Coord(2, 0), Coord(-1, 1), Coord(0, 1), Coord(1, 1), Coord(0, 2)];
    PlaceAllConcat(top + middle, bottom, at, world);
    PlaceAllConcat(top, middle, at, world);
    DiamondTop();
    DiamondMiddle();
    DiamondBottom();
  }

  lemma PlusPlaced()
    ensures PlaceAll([Coord(0, -1), Coord(-1, 0), Coord(0, 0), Coord(1, 0), Coord(0, 1)],
                     Position(0, 3), Position(2, 4)) ==
            {Position(0, 0), Position(0, 2), Position(0, 3), Position(1, 3)}
  {
    var at, world := Position(0, 3), Position(2, 4);
    assert PlaceAll([], at, world) == {};
    assert PlaceAll([Coord(0, 1)], at, world) ==
           {Position(1, 3)};
    assert PlaceAll([Coord(1, 0), Coord(0, 1)], at, world) ==
           {Position(0, 0), Position(1, 3)};
    assert PlaceAll([Coord(0, 0), Coord(1, 0), Coord(0, 1)], at, world) ==
           {Position(0, 3), Position(0, 0), Position(1, 3)};
    assert PlaceAll([Coord(-1, 0), Coord(0, 0), Coord(1, 0), Coord(0, 1)], at, world) ==
           {Position(0, 2), Position(0, 3), Position(0, 0), Position(1, 3)};
  }

  /** Radius 4 in the middle of a 5 x 7 world: the diamond, unwrapped. */
  lemma WorldMaskDiamond()
    ensures WorldMask(BlankMask(4, 2), Position(2, 3), Position(5, 7)) ==
            {Position(0, 3),
             Position(1, 2), Position(1, 3), Position(1, 4),
             Position(2, 1), Position(2, 2), Position(2, 3), Position(2, 4), Position(2, 5),
             Position(3, 2), Position(3, 3), Position(3, 4),
             Position(4, 3)}
  {
    assert BlankMask(4, 2) == Diamond by {
      BlankMaskDiamond();
    }
    WorldMaskIsPlaceAll(Diamond, Position(2, 3), Position(5, 7));
    DiamondPlaced();
  }

  /** Radius 1 around (0, 3) on a 2 x 4 world: the plus wraps around the top
      and the right edge, and two of its cells land on (1, 3). */
  lemma WorldMaskWrapped()
    ensures WorldMask(BlankMask(1, 1), Position(0, 3), Position(2, 4)) ==
            {Position(0, 0), Position(0, 2), Position(0, 3), Position(1, 3)}
  {
    assert BlankMask(1, 1) == Plus by {
      BlankMaskExamples();
    }
    WorldMaskIsPlaceAll(Plus, Position(0, 3), Position(2, 4));
    PlusPlaced();
  }
}
