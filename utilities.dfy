/**
 * The test-map parser (`utilities.rs`): a multi-line text drawing of the
 * world is trimmed line by line, every character is given its (row, column)
 * position, and the characters are folded into a world state.
 *
 * Text is modelled as a sequence of characters. `str::lines`, `str::trim`
 * and `join` are modelled after their documented behaviour; the builders of
 * the world state (`live_ant`, `hill`, `food`, `water`) belong to the api
 * crate, which is not part of this model, and are taken to append one entry
 * to the list of their kind.
 */
module Utilities {
  import opened Grid
  import opened Sequences

  // ---------------------------------------------------------------------
  // Lines, trimming and joining

  /** Unicode White_Space: what `str::trim` strips. */
  predicate IsWhitespace(c: char)
  {
    || ('\t' <= c <= '\r') || c == ' ' || c == '\U{85}' || c == '\U{A0}' || c == '\U{1680}'
    || ('\U{2000}' <= c <= '\U{200A}') || c == '\U{2028}' || c == '\U{2029}' || c == '\U{202F}'
    || c == '\U{205F}' || c == '\U{3000}'
  }

  predicate AllWhitespace(s: string)
  {
    forall i :: 0 <= i < |s| ==> IsWhitespace(s[i])
  }

  /** `trim_start`: the text after its leading whitespace. */
  function TrimStart(s: string): (r: string)
    ensures |r| <= |s|
  {
    if s != [] && IsWhitespace(s[0]) then TrimStart(s[1..]) else s
  }

  /** `trim_end`: the text before its trailing whitespace. */
  function TrimEnd(s: string): (r: string)
    ensures |r| <= |s|
  {
    if s != [] && IsWhitespace(s[|s| - 1]) then TrimEnd(s[..|s| - 1]) else s
  }

  /** `trim_start` removes the longest whitespace prefix: what it removes is
      whitespace, and what remains does not start with whitespace. */
  lemma {:induction false} TrimStartProperties(s: string)
    ensures TrimStart(s) == s[|s| - |TrimStart(s)|..]
    ensures TrimStart(s) == [] || !IsWhitespace(TrimStart(s)[0])
    ensures AllWhitespace(s[..|s| - |TrimStart(s)|])
  {
    if s != [] && IsWhitespace(s[0]) {
      TrimStartProperties(s[1..]);
    }
  }

  /** `trim_end` removes the longest whitespace suffix. */
  lemma {:induction false} TrimEndProperties(s: string)
    ensures TrimEnd(s) == s[..|TrimEnd(s)|]
    ensures TrimEnd(s) == [] || !IsWhitespace(TrimEnd(s)[|TrimEnd(s)| - 1])
    ensures AllWhitespace(s[|TrimEnd(s)|..])
  {
    if s != [] && IsWhitespace(s[|s| - 1]) {
      var init := s[..|s| - 1];
      TrimEndProperties(init);
      assert s[|TrimEnd(s)|..] == init[|TrimEnd(init)|..] + [s[|s| - 1]];
    }
  }

  /** `trim`. */
  function Trim(s: string): string
  {
    TrimEnd(TrimStart(s))
  }

  /** The whitespace `trim` removes at the front. */
  function Leading(s: string): string
  {
    s[..|s| - |TrimStart(s)|]
  }

  /** The whitespace `trim` removes at the back. */
  function Trailing(s: string): string
  {
    TrimStart(s)[|Trim(s)|..]
  }

  /** `trim` removes whitespace, and only whitespace, from both ends: the
      line is the trimmed line padded by whitespace on either side. */
  lemma TrimProperties(s: string)
    ensures AllWhitespace(Leading(s)) && AllWhitespace(Trailing(s))
    ensures s == Leading(s) + Trim(s) + Trailing(s)
  {
    var t := TrimStart(s);
    TrimStartProperties(s);
    TrimEndProperties(t);
    assert s == Leading(s) + t;
    assert t == Trim(s) + Trailing(s);
  }

  /** A trimmed line neither starts nor ends with whitespace, so trimming it
      again changes nothing. */
  lemma TrimIdempotent(s: string)
    ensures Trim(s) == [] || (!IsWhitespace(Trim(s)[0]) && !IsWhitespace(Trim(s)[|Trim(s)| - 1]))
    ensures Trim(Trim(s)) == Trim(s)
  {
    var t := TrimStart(s);
    var u := Trim(s);
    TrimStartProperties(s);
    TrimEndProperties(t);
    TrimStartProperties(u);
    TrimEndProperties(u);
    if u != [] {
      assert u[0] == t[0];
    }
    assert TrimStart(u) == u;
  }

  /** `join(sep)`. */
  function Join(lines: seq<string>, sep: char): string
  {
    if lines == [] then []
    else if |lines| == 1 then lines[0]
    else lines[0] + [sep] + Join(lines[1..], sep)
  }

  /** `split(sep)`: the pieces between separators; at least one. */
  function Split(s: string, sep: char): (r: seq<string>)
    ensures |r| >= 1
    ensures forall k :: 0 <= k < |r| ==> sep !in r[k]
  {
    if s == [] then [[]]
    else
      var rest := Split(s[1..], sep);
      if s[0] == sep then [[]] + rest
      else [[s[0]] + rest[0]] + rest[1..]
  }

  /** Splitting and joining again gives the text back. */
  lemma {:induction false} SplitJoin(s: string, sep: char)
    ensures Join(Split(s, sep), sep) == s
  {
    if s != [] {
      var rest := Split(s[1..], sep);
      SplitJoin(s[1..], sep);
      if s[0] == sep {
        assert ([[]] + rest)[1..] == rest;
      } else {
        var r := [[s[0]] + rest[0]] + rest[1..];
        if |rest| > 1 {
          assert r[1..] == rest[1..];
          assert s == [s[0]] + s[1..];
        }
      }
    }
  }

  /** Joining separator-free pieces and splitting again gives the pieces back. */
  lemma {:induction false} JoinSplit(lines: seq<string>, sep: char)
    requires lines != [] && forall k :: 0 <= k < |lines| ==> sep !in lines[k]
    ensures Split(Join(lines, sep), sep) == lines
    decreases |lines|, |lines[0]|
  {
    if lines[0] == [] {
      if |lines| > 1 {
        JoinSplit(lines[1..], sep);
        assert Join(lines, sep) == [sep] + Join(lines[1..], sep);
        assert ([sep] + Join(lines[1..], sep))[1..] == Join(lines[1..], sep);
        assert lines == [[]] + lines[1..];
      }
    } else {
      var first := lines[0];
      var shorter := [first[1..]] + lines[1..];
      assert shorter[1..] == lines[1..];
      assert forall k :: 0 <= k < |shorter| ==> sep !in shorter[k] by {
        assert forall c :: c in first[1..] ==> c in first;
      }
      JoinSplit(shorter, sep);
      assert Join(lines, sep) == [first[0]] + Join(shorter, sep);
      assert first[0] != sep by {
        assert first[0] in first;
      }
      assert ([first[0]] + Join(shorter, sep))[1..] == Join(shorter, sep);
      assert first == [first[0]] + first[1..];
      assert lines == [[first[0]] + first[1..]] + lines[1..];
    }
  }

  /** A line ended by "\r\n" loses its carriage return. */
  function StripCr(line: string): string
  {
    if line != [] && line[|line| - 1] == '\r' then line[..|line| - 1] else line
  }

  function StripCrAll(lines: seq<string>): seq<string>
  {
    seq(|lines|, k requires 0 <= k < |lines| => StripCr(lines[k]))
  }

  /** `str::lines`: the pieces between line feeds, a line ended by "\r\n"
      without its carriage return, and no empty last line after a final line
      feed. */
  function Lines(s: string): (r: seq<string>)
    ensures forall k :: 0 <= k < |r| ==> '\n' !in r[k]
  {
    if s == [] then []
    else
      var pieces := Split(s, '\n');
      var last := pieces[|pieces| - 1];
      assert forall k :: 0 <= k < |pieces| - 1 ==> forall c :: c in StripCr(pieces[k]) ==> c in pieces[k];
      StripCrAll(pieces[..|pieces| - 1]) + (if last == [] then [] else [last])
  }

  /** The lines kept by `filter(|l| !l.is_empty())`. */
  function NonEmpty(lines: seq<string>): (r: seq<string>)
    ensures forall l :: l in r <==> l in lines && l != []
    ensures |r| <= |lines|
  {
    if lines == [] then []
    else
      assert lines == [lines[0]] + lines[1..];
      (if lines[0] == [] then [] else [lines[0]]) + NonEmpty(lines[1..])
  }

  function TrimAll(lines: seq<string>): seq<string>
  {
    seq(|lines|, k requires 0 <= k < |lines| => Trim(lines[k]))
  }

  /** The lines `trim_lines` keeps: the non-empty lines, each trimmed. */
  function KeptLines(s: string): seq<string>
  {
    TrimAll(NonEmpty(Lines(s)))
  }

  /** `trim_lines`: lines empty before trimming are dropped, the others are
      trimmed and joined by line feeds. */
  function TrimLines(s: string): string
  {
    Join(KeptLines(s), '\n')
  }

  /**
   * The lines of `trim_lines`'s result are exactly the kept lines: one per
   * non-empty input line, in order, each trimmed. A line of only whitespace
   * is not empty before trimming, so it is kept, as an empty line.
   */
  lemma TrimLinesLines(s: string)
    ensures KeptLines(s) != [] ==> Split(TrimLines(s), '\n') == KeptLines(s)
    ensures KeptLines(s) == [] ==> TrimLines(s) == []
    ensures |KeptLines(s)| == |NonEmpty(Lines(s))|
    ensures forall k :: 0 <= k < |KeptLines(s)| ==> Trim(KeptLines(s)[k]) == KeptLines(s)[k]
  {
    var kept := KeptLines(s);
    var nonEmpty := NonEmpty(Lines(s));
    forall k | 0 <= k < |kept|
      ensures '\n' !in kept[k] && Trim(kept[k]) == kept[k]
    {
      assert nonEmpty[k] in Lines(s);
      TrimProperties(nonEmpty[k]);
      TrimIdempotent(nonEmpty[k]);
      assert nonEmpty[k] == Leading(nonEmpty[k]) + kept[k] + Trailing(nonEmpty[k]);
    }
    if kept != [] {
      JoinSplit(kept, '\n');
    }
  }

  /** Lines without line feeds or trailing carriage returns, the last one
      not empty, come back from `lines` after being joined by line feeds. */
  lemma LinesJoin(pieces: seq<string>)
    requires pieces != [] && pieces[|pieces| - 1] != []
    requires forall k :: 0 <= k < |pieces| ==> '\n' !in pieces[k]
    requires forall k :: 0 <= k < |pieces| ==> pieces[k] == [] || pieces[k][|pieces[k]| - 1] != '\r'
    ensures Lines(Join(pieces, '\n')) == pieces
  {
    var n := |pieces|;
    JoinSplit(pieces, '\n');
    JoinNonEmpty(pieces, '\n');
    LinesOfSplit(Join(pieces, '\n'), pieces);
    StripCrPrefix(pieces);
    assert pieces[..n - 1] + [pieces[n - 1]] == pieces;
  }

  /** `lines` of a text whose last piece is not empty. */
  lemma LinesOfSplit(s: string, pieces: seq<string>)
    requires s != [] && Split(s, '\n') == pieces && pieces != [] && pieces[|pieces| - 1] != []
    ensures Lines(s) == StripCrAll(pieces[..|pieces| - 1]) + [pieces[|pieces| - 1]]
  {
  }

  lemma StripCrPrefix(pieces: seq<string>)
    requires pieces != []
    requires forall k :: 0 <= k < |pieces| ==> pieces[k] == [] || pieces[k][|pieces[k]| - 1] != '\r'
    ensures StripCrAll(pieces[..|pieces| - 1]) == pieces[..|pieces| - 1]
  {
    var init := pieces[..|pieces| - 1];
    assert forall k :: 0 <= k < |init| ==> init[k] == pieces[k];
    StripCrNothing(init);
  }

  lemma {:induction false} JoinNonEmpty(pieces: seq<string>, sep: char)
    requires pieces != [] && pieces[|pieces| - 1] != []
    ensures Join(pieces, sep) != []
  {
    if |pieces| > 1 {
      JoinNonEmpty(pieces[1..], sep);
    }
  }

  lemma StripCrNothing(lines: seq<string>)
    requires forall k :: 0 <= k < |lines| ==> lines[k] == [] || lines[k][|lines[k]| - 1] != '\r'
    ensures StripCrAll(lines) == lines
  {
  }

  /** On lines that `lines` gives back unchanged, `trim_lines` drops the
      empty ones and trims and joins the rest. */
  lemma TrimLinesOfJoin(pieces: seq<string>)
    requires pieces != [] && pieces[|pieces| - 1] != []
    requires forall k :: 0 <= k < |pieces| ==> '\n' !in pieces[k]
    requires forall k :: 0 <= k < |pieces| ==> pieces[k] == [] || pieces[k][|pieces[k]| - 1] != '\r'
    ensures TrimLines(Join(pieces, '\n')) == Join(TrimAll(NonEmpty(pieces)), '\n')
  {
    LinesJoin(pieces);
  }

  /** The text of the unit test, with shorter padding. */
  lemma ExampleText()
    ensures Join(["a", "", "   b", "   c  "], '\n') == "a\n\n   b\n   c  "
  {
    var pieces := ["a", "", "   b", "   c  "];
    assert pieces[1..][1..] == ["   b", "   c  "];
    assert pieces[1..][1..][1..] == ["   c  "];
    assert Join(pieces[1..][1..], '\n') == "   b\n   c  ";
    assert Join(pieces[1..], '\n') == "\n   b\n   c  ";
  }

  lemma ExampleTrimB()
    ensures Trim("   b") == "b"
  {
    assert TrimStart("b") == "b";
    assert TrimStart(" b") == "b";
    assert TrimStart("  b") == "b";
  }

  lemma ExampleTrimC()
    ensures Trim("   c  ") == "c"
  {
    assert TrimStart("   c  ") == "c  " by {
      assert TrimStart("c  ") == "c  ";
      assert TrimStart(" c  ") == "c  ";
      assert TrimStart("  c  ") == "c  ";
    }
    assert TrimEnd("c  ") == "c" by {
      assert TrimEnd("c") == "c";
      assert TrimEnd("c ") == "c";
    }
  }

  lemma ExampleNonEmpty()
    ensures NonEmpty(["a", "", "   b", "   c  "]) == ["a", "   b", "   c  "]
  {
    assert NonEmpty(["   c  "]) == ["   c  "];
    assert NonEmpty(["   b", "   c  "]) == ["   b", "   c  "];
    assert NonEmpty(["", "   b", "   c  "]) == ["   b", "   c  "];
  }

  lemma ExampleTrimAll()
    ensures TrimAll(["a", "   b", "   c  "]) == ["a", "b", "c"]
  {
    assert Trim("a") == "a";
    ExampleTrimB();
    ExampleTrimC();
  }

  lemma ExampleResult()
    ensures Join(["a", "b", "c"], '\n') == "a\nb\nc"
  {
    assert Join(["b", "c"], '\n') == "b\nc";
  }

  /** The unit test (text as in `ExampleText`): the empty line is dropped and
      the padding is trimmed. */
  lemma TrimLinesExample()
    ensures TrimLines(Join(["a", "", "   b", "   c  "], '\n')) == "a\nb\nc"
  {
    var pieces := ["a", "", "   b", "   c  "];
    assert TrimLines(Join(pieces, '\n')) == Join(TrimAll(NonEmpty(pieces)), '\n') by {
      TrimLinesOfJoin(pieces);
    }
    assert NonEmpty(pieces) == ["a", "   b", "   c  "] by {
      ExampleNonEmpty();
    }
    assert TrimAll(["a", "   b", "   c  "]) == ["a", "b", "c"] by {
      ExampleTrimAll();
    }
    assert Join(["a", "b", "c"], '\n') == "a\nb\nc" by {
      ExampleResult();
    }
  }

  lemma BlankNonEmpty()
    ensures NonEmpty(["a", "  ", "b"]) == ["a", "  ", "b"]
  {
    assert NonEmpty(["b"]) == ["b"];
    assert NonEmpty(["  ", "b"]) == ["  ", "b"];
  }

  lemma BlankTrimAll()
    ensures TrimAll(["a", "  ", "b"]) == ["a", "", "b"]
  {
    assert Trim("a") == "a";
    assert Trim("  ") == "" by {
      assert TrimStart(" ") == [];
    }
    assert Trim("b") == "b";
  }

  lemma BlankResult()
    ensures Join(["a", "", "b"], '\n') == "a\n\nb"
  {
    assert Join(["", "b"], '\n') == "\nb";
  }

  /** Filtering comes before trimming, so a line of blanks survives as an
      empty line. */
  lemma BlankLineSurvives()
    ensures TrimLines(Join(["a", "  ", "b"], '\n')) == "a\n\nb"
  {
    var pieces := ["a", "  ", "b"];
    assert TrimLines(Join(pieces, '\n')) == Join(TrimAll(NonEmpty(pieces)), '\n') by {
      TrimLinesOfJoin(pieces);
    }
    assert NonEmpty(pieces) == pieces by {
      BlankNonEmpty();
    }
    assert TrimAll(pieces) == ["a", "", "b"] by {
      BlankTrimAll();
    }
    assert Join(["a", "", "b"], '\n') == "a\n\nb" by {
      BlankResult();
    }
  }

  // ---------------------------------------------------------------------
  // Indexer

  /** `Indexer`: an endless iterator over 0, 1, 2, ... */
  class Indexer {
    var index: nat

    constructor ()
      ensures index == 0
    {
      index := 0;
    }

    /** `next`: the current index, then one more; never exhausted. */
    method Next() returns (r: nat)
      modifies this
      ensures r == old(index) && index == old(index) + 1
    {
      r := index;
      index := index + 1;
    }
  }

  /** The first `n` items of a fresh `Indexer`: 0 up to n - 1, in order. */
  method FirstIndices(n: nat) returns (r: seq<nat>)
    ensures |r| == n
    ensures forall k :: 0 <= k < n ==> r[k] == k
  {
    var indexer := new Indexer();
    r := [];
    while |r| < n
      invariant |r| <= n && indexer.index == |r|
      invariant forall k :: 0 <= k < |r| ==> r[k] == k
      modifies indexer
    {
      var i := indexer.Next();
      r := r + [i];
    }
  }

  // ---------------------------------------------------------------------
  // The world

  /** A character of the map with its position. */
  datatype Cell = Cell(ch: char, pos: Position)

  /** The characters of one line, with column numbers counted from 0. */
  function RowCells(line: string, row: nat): (r: seq<Cell>)
    ensures |r| == |line|
    ensures forall c :: 0 <= c < |line| ==> r[c] == Cell(line[c], Position(row, c))
  {
    seq(|line|, c requires 0 <= c < |line| => Cell(line[c], Position(row, c)))
  }

  /** The characters of lines `row` onwards, row by row. */
  function CellsFrom(lines: seq<string>, row: nat): seq<Cell>
    decreases |lines| - row
  {
    if row >= |lines| then [] else RowCells(lines[row], row) + CellsFrom(lines, row + 1)
  }

  /** Every character of the map appears at its own line and column, and
      nothing else appears. */
  lemma {:induction false} CellsAtTheirPositions(lines: seq<string>, row: nat)
    ensures forall x: Cell :: x in CellsFrom(lines, row) <==>
      row <= x.pos.row < |lines| && x.pos.col < |lines[x.pos.row]| && x.ch == lines[x.pos.row][x.pos.col]
    decreases |lines| - row
  {
    if row < |lines| {
      CellsAtTheirPositions(lines, row + 1);
      RowCellsAtTheirPositions(lines[row], row);
      var head, tail := RowCells(lines[row], row), CellsFrom(lines, row + 1);
      forall x: Cell
        ensures x in CellsFrom(lines, row) <==> x in head || x in tail
      {
      }
    }
  }

  /** A line's cells are its characters at their columns. */
  lemma RowCellsAtTheirPositions(line: string, row: nat)
    ensures forall x: Cell :: x in RowCells(line, row) <==>
      x.pos.row == row && x.pos.col < |line| && x.ch == line[x.pos.col]
  {
    var r := RowCells(line, row);
    forall x: Cell | x.pos.row == row && x.pos.col < |line| && x.ch == line[x.pos.col]
      ensures x in r
    {
      assert r[x.pos.col] == x;
    }
  }

  function AddLiveAnt(w: WorldState, pos: Position, player: nat): WorldState
  {
    w.(liveAnts := w.liveAnts + [Ant(pos, player)])
  }

  function AddHill(w: WorldState, pos: Position, player: nat): WorldState
  {
    w.(hills := w.hills + [Hill(pos, player)])
  }

  /** What one character adds: 'a' to 'j' a live ant of player 0 to 9, 'A' to
      'J' a live ant and a hill of that player, '0' to '9' a hill, '*' food,
      '%' water, anything else nothing. */
  function Apply(w: WorldState, x: Cell): WorldState
  {
    var ch := x.ch;
    if 'a' <= ch <= 'j' then AddLiveAnt(w, x.pos, ch as int - 'a' as int)
    else if 'A' <= ch <= 'J' then AddHill(AddLiveAnt(w, x.pos, ch as int - 'A' as int), x.pos, ch as int - 'A' as int)
    else if '0' <= ch <= '9' then AddHill(w, x.pos, ch as int - '0' as int)
    else if ch == '*' then w.(foods := w.foods + [x.pos])
    else if ch == '%' then w.(waters := w.waters + [x.pos])
    else w
  }

  /** The fold over the cells, from the empty world. */
  function Fold(cells: seq<Cell>): WorldState
  {
    if cells == [] then EmptyWorld else Apply(Fold(cells[..|cells| - 1]), cells[|cells| - 1])
  }

  /** `world`: the trimmed map's characters, by line and column, folded into
      a world state. */
  function World(text: string): WorldState
  {
    Fold(CellsFrom(Lines(TrimLines(text)), 0))
  }

  /** Lines with nothing to trim, none of them empty, are exactly the lines
      `world` reads back from their join. */
  lemma WorldOfTrimmedLines(lines: seq<string>)
    requires lines != []
    requires forall k :: 0 <= k < |lines| ==> lines[k] != [] && '\n' !in lines[k] && Trim(lines[k]) == lines[k]
    ensures World(Join(lines, '\n')) == Fold(CellsFrom(lines, 0))
  {
    var text := Join(lines, '\n');
    assert TrimLines(text) == text by {
      TrimmedLinesEndClean(lines);
      TrimLinesOfJoin(lines);
      NonEmptyKeepsAll(lines);
      assert TrimAll(lines) == lines;
    }
    assert Lines(text) == lines by {
      TrimmedLinesEndClean(lines);
      LinesJoin(lines);
    }
  }

  /** A non-empty line with nothing to trim does not end with a carriage
      return, which is whitespace. */
  lemma TrimmedLinesEndClean(lines: seq<string>)
    requires forall k :: 0 <= k < |lines| ==> lines[k] != [] && Trim(lines[k]) == lines[k]
    ensures forall k :: 0 <= k < |lines| ==> lines[k][|lines[k]| - 1] != '\r'
  {
    forall k | 0 <= k < |lines|
      ensures lines[k][|lines[k]| - 1] != '\r'
    {
      TrimIdempotent(lines[k]);
    }
  }

  lemma {:induction false} NonEmptyKeepsAll(lines: seq<string>)
    requires forall k :: 0 <= k < |lines| ==> lines[k] != []
    ensures NonEmpty(lines) == lines
  {
    if lines != [] {
      NonEmptyKeepsAll(lines[1..]);
      assert lines == [lines[0]] + lines[1..];
    }
  }

  // Each kind of fact, read off the cells independently of the fold.

  function AntOf(x: Cell): seq<Ant>
  {
    if 'a' <= x.ch <= 'j' then [Ant(x.pos, x.ch as int - 'a' as int)]
    else if 'A' <= x.ch <= 'J' then [Ant(x.pos, x.ch as int - 'A' as int)]
    else []
  }

  function HillOf(x: Cell): seq<Hill>
  {
    if 'A' <= x.ch <= 'J' then [Hill(x.pos, x.ch as int - 'A' as int)]
    else if '0' <= x.ch <= '9' then [Hill(x.pos, x.ch as int - '0' as int)]
    else []
  }

  function AntsIn(cells: seq<Cell>): seq<Ant>
  {
    if cells == [] then [] else AntOf(cells[0]) + AntsIn(cells[1..])
  }

  function HillsIn(cells: seq<Cell>): seq<Hill>
  {
    if cells == [] then [] else HillOf(cells[0]) + HillsIn(cells[1..])
  }

  function PositionOf(ch: char, x: Cell): seq<Position>
  {
    if x.ch == ch then [x.pos] else []
  }

  /** The positions holding character `ch`, in scan order. */
  function PositionsOf(ch: char, cells: seq<Cell>): seq<Position>
  {
    if cells == [] then [] else PositionOf(ch, cells[0]) + PositionsOf(ch, cells[1..])
  }

  lemma {:induction false} AntsAppend(cells: seq<Cell>, x: Cell)
    ensures AntsIn(cells + [x]) == AntsIn(cells) + AntOf(x)
  {
    if cells != [] {
      assert (cells + [x])[1..] == cells[1..] + [x];
      AntsAppend(cells[1..], x);
    }
  }

  lemma {:induction false} HillsAppend(cells: seq<Cell>, x: Cell)
    ensures HillsIn(cells + [x]) == HillsIn(cells) + HillOf(x)
  {
    if cells != [] {
      assert (cells + [x])[1..] == cells[1..] + [x];
      HillsAppend(cells[1..], x);
    }
  }

  lemma {:induction false} PositionsAppend(ch: char, cells: seq<Cell>, x: Cell)
    ensures PositionsOf(ch, cells + [x]) == PositionsOf(ch, cells) + PositionOf(ch, x)
  {
    if cells != [] {
      assert (cells + [x])[1..] == cells[1..] + [x];
      PositionsAppend(ch, cells[1..], x);
    }
  }

  /**
   * The fold puts every fact in the list of its kind, in the order the map is
   * scanned: the live ants are those of the ant characters, the hills those
   * of the hill characters, the food the cells of '*', the water the cells
   * of '%'.
   */
  lemma {:induction false} FoldCollectsFacts(cells: seq<Cell>)
    ensures Fold(cells) == WorldState(AntsIn(cells), HillsIn(cells), PositionsOf('*', cells), PositionsOf('%', cells))
  {
    if cells != [] {
      var init := cells[..|cells| - 1];
      var x := cells[|cells| - 1];
      FoldCollectsFacts(init);
      AntsAppend(init, x);
      HillsAppend(init, x);
      PositionsAppend('*', init, x);
      PositionsAppend('%', init, x);
      assert cells == init + [x];
    }
  }

  // Facts read off two stretches of the map, one after the other.

  lemma AntsUnfold(a: seq<Cell>, b: seq<Cell>)
    requires a != []
    ensures AntsIn(a + b) == AntOf(a[0]) + AntsIn(a[1..] + b)
  {
    assert (a + b)[0] == a[0];
    assert (a + b)[1..] == a[1..] + b;
  }

  lemma {:induction false} AntsConcat(a: seq<Cell>, b: seq<Cell>)
    ensures AntsIn(a + b) == AntsIn(a) + AntsIn(b)
  {
    if a == [] {
      assert a + b == b;
    } else {
      AntsConcat(a[1..], b);
      AntsUnfold(a, b);
      Associative(AntOf(a[0]), AntsIn(a[1..]), AntsIn(b));
    }
  }

  lemma HillsUnfold(a: seq<Cell>, b: seq<Cell>)
    requires a != []
    ensures HillsIn(a + b) == HillOf(a[0]) + HillsIn(a[1..] + b)
  {
    assert (a + b)[0] == a[0];
    assert (a + b)[1..] == a[1..] + b;
  }

  lemma {:induction false} HillsConcat(a: seq<Cell>, b: seq<Cell>)
    ensures HillsIn(a + b) == HillsIn(a) + HillsIn(b)
  {
    if a == [] {
      assert a + b == b;
    } else {
      HillsConcat(a[1..], b);
      HillsUnfold(a, b);
      Associative(HillOf(a[0]), HillsIn(a[1..]), HillsIn(b));
    }
  }

  lemma PositionsUnfold(ch: char, a: seq<Cell>, b: seq<Cell>)
    requires a != []
    ensures PositionsOf(ch, a + b) == PositionOf(ch, a[0]) + PositionsOf(ch, a[1..] + b)
  {
    assert (a + b)[0] == a[0];
    assert (a + b)[1..] == a[1..] + b;
  }

  lemma {:induction false} PositionsConcat(ch: char, a: seq<Cell>, b: seq<Cell>)
    ensures PositionsOf(ch, a + b) == PositionsOf(ch, a) + PositionsOf(ch, b)
  {
    if a == [] {
      assert a + b == b;
    } else {
      PositionsConcat(ch, a[1..], b);
      PositionsUnfold(ch, a, b);
      Associative(PositionOf(ch, a[0]), PositionsOf(ch, a[1..]), PositionsOf(ch, b));
    }
  }

  // The unit test's map, row by row, after `trim_lines`.

  lemma Row0(line: string)
    requires line == "-abc---"
    ensures AntsIn(RowCells(line, 0)) == [Ant(Position(0, 1), 0), Ant(Position(0, 2), 1), Ant(Position(0, 3), 2)]
    ensures HillsIn(RowCells(line, 0)) == []
    ensures PositionsOf('*', RowCells(line, 0)) == []
    ensures PositionsOf('%', RowCells(line, 0)) == []
  {
    assert RowCells(line, 0) ==
      [Cell('-', Position(0, 0)), Cell('a', Position(0, 1)), Cell('b', Position(0, 2)), Cell('c', Position(0, 3)),
        Cell('-', Position(0, 4)), Cell('-', Position(0, 5)), Cell('-', Position(0, 6))];
    assert AntsIn([Cell('-', Position(0, 0)), Cell('a', Position(0, 1)), Cell('b', Position(0, 2)), Cell('c', Position(0, 3)),
        Cell('-', Position(0, 4)), Cell('-', Position(0, 5)), Cell('-', Position(0, 6))]) == [Ant(Position(0, 1), 0), Ant(Position(0, 2), 1), Ant(Position(0, 3), 2)];
    assert HillsIn([Cell('-', Position(0, 0)), Cell('a', Position(0, 1)), Cell('b', Position(0, 2)), Cell('c', Position(0, 3)),
        Cell('-', Position(0, 4)), Cell('-', Position(0, 5)), Cell('-', Position(0, 6))]) == [];
    assert PositionsOf('*', [Cell('-', Position(0, 0)), Cell('a', Position(0, 1)), Cell('b', Position(0, 2)), Cell('c', Position(0, 3)),
        Cell('-', Position(0, 4)), Cell('-', Position(0, 5)), Cell('-', Position(0, 6))]) == [];
    assert PositionsOf('%', [Cell('-', Position(0, 0)), Cell('a', Position(0, 1)), Cell('b', Position(0, 2)), Cell('c', Position(0, 3)),
        Cell('-', Position(0, 4)), Cell('-', Position(0, 5)), Cell('-', Position(0, 6))]) == [];
  }

  lemma Row1(line: string)
    requires line == "-----4-"
    ensures AntsIn(RowCells(line, 1)) == []
    ensures HillsIn(RowCells(line, 1)) == [Hill(Position(1, 5), 4)]
    ensures PositionsOf('*', RowCells(line, 1)) == []
    ensures PositionsOf('%', RowCells(line, 1)) == []
  {
    assert RowCells(line, 1) ==
      [Cell('-', Position(1, 0)), Cell('-', Position(1, 1)), Cell('-', Position(1, 2)), Cell('-', Position(1, 3)),
        Cell('-', Position(1, 4)), Cell('4', Position(1, 5)), Cell('-', Position(1, 6))];
    assert AntsIn([Cell('-', Position(1, 0)), Cell('-', Position(1, 1)), Cell('-', Position(1, 2)), Cell('-', Position(1, 3)),
        Cell('-', Position(1, 4)), Cell('4', Position(1, 5)), Cell('-', Position(1, 6))]) == [];
    assert HillsIn([Cell('-', Position(1, 0)), Cell('-', Position(1, 1)), Cell('-', Position(1, 2)), Cell('-', Position(1, 3)),
        Cell('-', Position(1, 4)), Cell('4', Position(1, 5)), Cell('-', Position(1, 6))]) == [Hill(Position(1, 5), 4)];
    assert PositionsOf('*', [Cell('-', Position(1, 0)), Cell('-', Position(1, 1)), Cell('-', Position(1, 2)), Cell('-', Position(1, 3)),
        Cell('-', Position(1, 4)), Cell('4', Position(1, 5)), Cell('-', Position(1, 6))]) == [];
    assert PositionsOf('%', [Cell('-', Position(1, 0)), Cell('-', Position(1, 1)), Cell('-', Position(1, 2)), Cell('-', Position(1, 3)),
        Cell('-', Position(1, 4)), Cell('4', Position(1, 5)), Cell('-', Position(1, 6))]) == [];
  }

  lemma Row2(line: string)
    requires line == "--*--A-"
    ensures AntsIn(RowCells(line, 2)) == [Ant(Position(2, 5), 0)]
    ensures HillsIn(RowCells(line, 2)) == [Hill(Position(2, 5), 0)]
    ensures PositionsOf('*', RowCells(line, 2)) == [Position(2, 2)]
    ensures PositionsOf('%', RowCells(line, 2)) == []
  {
    assert RowCells(line, 2) ==
      [Cell('-', Position(2, 0)), Cell('-', Position(2, 1)), Cell('*', Position(2, 2)), Cell('-', Position(2, 3)),
        Cell('-', Position(2, 4)), Cell('A', Position(2, 5)), Cell('-', Position(2, 6))];
    assert AntsIn([Cell('-', Position(2, 0)), Cell('-', Position(2, 1)), Cell('*', Position(2, 2)), Cell('-', Position(2, 3)),
        Cell('-', Position(2, 4)), Cell('A', Position(2, 5)), Cell('-', Position(2, 6))]) == [Ant(Position(2, 5), 0)];
    assert HillsIn([Cell('-', Position(2, 0)), Cell('-', Position(2, 1)), Cell('*', Position(2, 2)), Cell('-', Position(2, 3)),
        Cell('-', Position(2, 4)), Cell('A', Position(2, 5)), Cell('-', Position(2, 6))]) == [Hill(Position(2, 5), 0)];
    assert PositionsOf('*', [Cell('-', Position(2, 0)), Cell('-', Position(2, 1)), Cell('*', Position(2, 2)), Cell('-', Position(2, 3)),
        Cell('-', Position(2, 4)), Cell('A', Position(2, 5)), Cell('-', Position(2, 6))]) == [Position(2, 2)];
    assert PositionsOf('%', [Cell('-', Position(2, 0)), Cell('-', Position(2, 1)), Cell('*', Position(2, 2)), Cell('-', Position(2, 3)),
        Cell('-', Position(2, 4)), Cell('A', Position(2, 5)), Cell('-', Position(2, 6))]) == [];
  }

  lemma Row3(line: string)
    requires line == "%----\U{0E22}\U{0E07}--"
    ensures AntsIn(RowCells(line, 3)) == []
    ensures HillsIn(RowCells(line, 3)) == []
    ensures PositionsOf('*', RowCells(line, 3)) == []
    ensures PositionsOf('%', RowCells(line, 3)) == [Position(3, 0)]
  {
    assert RowCells(line, 3) ==
      [Cell('%', Position(3, 0)), Cell('-', Position(3, 1)), Cell('-', Position(3, 2)), Cell('-', Position(3, 3)),
        Cell('-', Position(3, 4)), Cell('\U{0E22}', Position(3, 5)), Cell('\U{0E07}', Position(3, 6)),
        Cell('-', Position(3, 7)), Cell('-', Position(3, 8))];
    assert AntsIn([Cell('%', Position(3, 0)), Cell('-', Position(3, 1)), Cell('-', Position(3, 2)), Cell('-', Position(3, 3)),
        Cell('-', Position(3, 4)), Cell('\U{0E22}', Position(3, 5)), Cell('\U{0E07}', Position(3, 6)),
        Cell('-', Position(3, 7)), Cell('-', Position(3, 8))]) == [];
    assert HillsIn([Cell('%', Position(3, 0)), Cell('-', Position(3, 1)), Cell('-', Position(3, 2)), Cell('-', Position(3, 3)),
        Cell('-', Position(3, 4)), Cell('\U{0E22}', Position(3, 5)), Cell('\U{0E07}', Position(3, 6)),
        Cell('-', Position(3, 7)), Cell('-', Position(3, 8))]) == [];
    assert PositionsOf('*', [Cell('%', Position(3, 0)), Cell('-', Position(3, 1)), Cell('-', Position(3, 2)), Cell('-', Position(3, 3)),
        Cell('-', Position(3, 4)), Cell('\U{0E22}', Position(3, 5)), Cell('\U{0E07}', Position(3, 6)),
        Cell('-', Position(3, 7)), Cell('-', Position(3, 8))]) == [];
    assert PositionsOf('%', [Cell('%', Position(3, 0)), Cell('-', Position(3, 1)), Cell('-', Position(3, 2)), Cell('-', Position(3, 3)),
        Cell('-', Position(3, 4)), Cell('\U{0E22}', Position(3, 5)), Cell('\U{0E07}', Position(3, 6)),
        Cell('-', Position(3, 7)), Cell('-', Position(3, 8))]) == [Position(3, 0)];
  }

  lemma ExampleCells(lines: seq<string>)
    requires lines == ["-abc---", "-----4-", "--*--A-", "%----\U{0E22}\U{0E07}--"]
    ensures CellsFrom(lines, 0) == RowCells(lines[0], 0) + (RowCells(lines[1], 1) + (RowCells(lines[2], 2) + RowCells(lines[3], 3)))
  {
    assert CellsFrom(lines, 4) == [];
    assert CellsFrom(lines, 3) == RowCells(lines[3], 3) + [];
    assert CellsFrom(lines, 2) == RowCells(lines[2], 2) + RowCells(lines[3], 3);
  }

  lemma ExampleAnts(lines: seq<string>)
    requires lines == ["-abc---", "-----4-", "--*--A-", "%----\U{0E22}\U{0E07}--"]
    ensures AntsIn(CellsFrom(lines, 0)) == [Ant(Position(0, 1), 0), Ant(Position(0, 2), 1), Ant(Position(0, 3), 2), Ant(Position(2, 5), 0)]
  {
    var r0, r1, r2, r3 := RowCells(lines[0], 0), RowCells(lines[1], 1), RowCells(lines[2], 2), RowCells(lines[3], 3);
    assert AntsIn(r2 + r3) == [Ant(Position(2, 5), 0)] by {
      AntsConcat(r2, r3);
      Row2(lines[2]);
      Row3(lines[3]);
    }
    assert AntsIn(r1 + (r2 + r3)) == [Ant(Position(2, 5), 0)] by {
      AntsConcat(r1, r2 + r3);
      Row1(lines[1]);
    }
    assert AntsIn(r0 + (r1 + (r2 + r3))) == [Ant(Position(0, 1), 0), Ant(Position(0, 2), 1), Ant(Position(0, 3), 2), Ant(Position(2, 5), 0)] by {
      AntsConcat(r0, r1 + (r2 + r3));
      Row0(lines[0]);
    }
    ExampleCells(lines);
  }

  lemma ExampleHills(lines: seq<string>)
    requires lines == ["-abc---", "-----4-", "--*--A-", "%----\U{0E22}\U{0E07}--"]
    ensures HillsIn(CellsFrom(lines, 0)) == [Hill(Position(1, 5), 4), Hill(Position(2, 5), 0)]
  {
    var r0, r1, r2, r3 := RowCells(lines[0], 0), RowCells(lines[1], 1), RowCells(lines[2], 2), RowCells(lines[3], 3);
    assert HillsIn(r2 + r3) == [Hill(Position(2, 5), 0)] by {
      HillsConcat(r2, r3);
      Row2(lines[2]);
      Row3(lines[3]);
    }
    assert HillsIn(r1 + (r2 + r3)) == [Hill(Position(1, 5), 4), Hill(Position(2, 5), 0)] by {
      HillsConcat(r1, r2 + r3);
      Row1(lines[1]);
    }
    assert HillsIn(r0 + (r1 + (r2 + r3))) == [Hill(Position(1, 5), 4), Hill(Position(2, 5), 0)] by {
      HillsConcat(r0, r1 + (r2 + r3));
      Row0(lines[0]);
    }
    ExampleCells(lines);
  }

  lemma ExampleFoods(lines: seq<string>)
    requires lines == ["-abc---", "-----4-", "--*--A-", "%----\U{0E22}\U{0E07}--"]
    ensures PositionsOf('*', CellsFrom(lines, 0)) == [Position(2, 2)]
  {
    var r0, r1, r2, r3 := RowCells(lines[0], 0), RowCells(lines[1], 1), RowCells(lines[2], 2), RowCells(lines[3], 3);
    assert PositionsOf('*', r2 + r3) == [Position(2, 2)] by {
      PositionsConcat('*', r2, r3);
      Row2(lines[2]);
      Row3(lines[3]);
    }
    assert PositionsOf('*', r1 + (r2 + r3)) == [Position(2, 2)] by {
      PositionsConcat('*', r1, r2 + r3);
      Row1(lines[1]);
    }
    assert PositionsOf('*', r0 + (r1 + (r2 + r3))) == [Position(2, 2)] by {
      PositionsConcat('*', r0, r1 + (r2 + r3));
      Row0(lines[0]);
    }
    ExampleCells(lines);
  }

  lemma ExampleWaters(lines: seq<string>)
    requires lines == ["-abc---", "-----4-", "--*--A-", "%----\U{0E22}\U{0E07}--"]
    ensures PositionsOf('%', CellsFrom(lines, 0)) == [Position(3, 0)]
  {
    var r0, r1, r2, r3 := RowCells(lines[0], 0), RowCells(lines[1], 1), RowCells(lines[2], 2), RowCells(lines[3], 3);
    assert PositionsOf('%', r2 + r3) == [Position(3, 0)] by {
      PositionsConcat('%', r2, r3);
      Row2(lines[2]);
      Row3(lines[3]);
    }
    assert PositionsOf('%', r1 + (r2 + r3)) == [Position(3, 0)] by {
      PositionsConcat('%', r1, r2 + r3);
      Row1(lines[1]);
    }
    assert PositionsOf('%', r0 + (r1 + (r2 + r3))) == [Position(3, 0)] by {
      PositionsConcat('%', r0, r1 + (r2 + r3));
      Row0(lines[0]);
    }
    ExampleCells(lines);
  }

  /**
   * The unit test's map, already trimmed: three ants of players 0 to 2, a
   * hill of player 4, food, an ant on its own hill of player 0, water, and two
   * characters that stand for nothing. The world holds them kind by kind in
   * scan order.
   */
  lemma WorldExample(lines: seq<string>)
    requires lines == ["-abc---", "-----4-", "--*--A-", "%----\U{0E22}\U{0E07}--"]
    ensures Fold(CellsFrom(lines, 0)) ==
      WorldState(
        [Ant(Position(0, 1), 0), Ant(Position(0, 2), 1), Ant(Position(0, 3), 2), Ant(Position(2, 5), 0)],
        [Hill(Position(1, 5), 4), Hill(Position(2, 5), 0)],
        [Position(2, 2)],
        [Position(3, 0)])
  {
    FoldCollectsFacts(CellsFrom(lines, 0));
    ExampleAnts(lines);
    ExampleHills(lines);
    ExampleFoods(lines);
    ExampleWaters(lines);
  }

  /** The whole test: the map, joined by line feeds with its padding already
      gone, read by `world`. */
  lemma WorldTestMap(lines: seq<string>)
    requires lines == ["-abc---", "-----4-", "--*--A-", "%----\U{0E22}\U{0E07}--"]
    ensures World(Join(lines, '\n')) ==
      WorldState(
        [Ant(Position(0, 1), 0), Ant(Position(0, 2), 1), Ant(Position(0, 3), 2), Ant(Position(2, 5), 0)],
        [Hill(Position(1, 5), 4), Hill(Position(2, 5), 0)],
        [Position(2, 2)],
        [Position(3, 0)])
  {
    assert forall k :: 0 <= k < |lines| ==> lines[k] != [] && '\n' !in lines[k] && Trim(lines[k]) == lines[k] by {
      assert Trim("-abc---") == "-abc---";
      assert Trim("-----4-") == "-----4-";
      assert Trim("--*--A-") == "--*--A-";
      assert Trim("%----\U{0E22}\U{0E07}--") == "%----\U{0E22}\U{0E07}--";
    }
    WorldOfTrimmedLines(lines);
    WorldExample(lines);
  }
}
