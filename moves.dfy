/**
 * `processCells` over the whole grid (bin/game-engine/game-engine.js): every
 * line getRangeArray yields is slid, merged and compacted in turn, each on
 * the grid the previous lines left. Also the four-move lookahead of
 * `isEndGame`, stated on grids.
 */
module Moves {
  import opened Cells
  import opened Lines
  import opened Grids
  import opened Ranges

  /** Every line names distinct keys of the grid. */
  predicate LinesFit(g: Grid, lines: seq<seq<Coord>>)
  {
    forall i :: 0 <= i < |lines| ==> Within(lines[i], g) && Distinct(lines[i])
  }

  /** No key lies on two different lines. */
  predicate LinesApart(lines: seq<seq<Coord>>)
  {
    forall i, j, p :: 0 <= i < j < |lines| && p in lines[i] ==> p !in lines[j]
  }

  /** One keySet of processCells: the slide/merge loop, then removeEmptyCells. */
  function ApplyLine(g: Grid, line: seq<Coord>): (r: Grid)
    requires Within(line, g) && Distinct(line)
    ensures r.Keys == g.Keys
  {
    Write(g, line, ProcessLine(View(g, line)))
  }

  /** `matrixKeys.forEach(...)`: the lines in order, each on the grid the last one left. */
  function ApplyLines(g: Grid, lines: seq<seq<Coord>>): (r: Grid)
    requires LinesFit(g, lines)
    ensures r.Keys == g.Keys
    decreases |lines|
  {
    if lines == [] then g
    else
      var g' := ApplyLine(g, lines[0]);
      assert LinesFit(g', lines[1..]) by {
        forall i | 0 <= i < |lines| - 1 ensures Within(lines[1..][i], g') && Distinct(lines[1..][i]) {
          assert lines[1..][i] == lines[i + 1];
        }
      }
      ApplyLines(g', lines[1..])
  }

  /** The first line, then the rest on the grid it leaves. */
  lemma ApplyLinesCons(g: Grid, lines: seq<seq<Coord>>)
    requires lines != [] && LinesFit(g, lines)
    ensures Within(lines[0], g) && Distinct(lines[0]) && LinesFit(ApplyLine(g, lines[0]), lines[1..])
    ensures ApplyLines(g, lines) == ApplyLines(ApplyLine(g, lines[0]), lines[1..])
  {
  }

  /** The lines of a direction fit any grid with the n*n keys. */
  lemma DirectionFits(g: Grid, n: nat, d: Direction)
    requires n >= 1 && g.Keys == Keys(n)
    ensures LinesFit(g, DirectionLines(d, n)) && LinesApart(DirectionLines(d, n))
    ensures |DirectionLines(d, n)| == n && forall i :: 0 <= i < n ==> |DirectionLines(d, n)[i]| == n
  {
    DirectionCovers(d, n);
    var lines := DirectionLines(d, n);
    forall i | 0 <= i < n ensures Within(lines[i], g) && Distinct(lines[i]) {
    }
    forall i, j, p | 0 <= i < j < n && p in lines[i] ensures p !in lines[j] {
      var a :| 0 <= a < n && lines[i][a] == p;
      assert forall b :: 0 <= b < n ==> lines[j][b] != p;
    }
  }

  /** One of the moves isEndGame tries. */
  ghost function Trial(g: Grid, n: nat, d: Direction): (r: Grid)
    requires n >= 1 && g.Keys == Keys(n)
    ensures r.Keys == g.Keys
  {
    DirectionFits(g, n, d);
    ApplyLines(g, DirectionLines(d, n))
  }

  /** The grid after the moves isEndGame tries: down, up, right, left. */
  ghost function Lookahead(g: Grid, n: nat): (r: Grid)
    requires n >= 1 && g.Keys == Keys(n)
    ensures r.Keys == g.Keys
  {
    Trial(Trial(Trial(Trial(g, n, Down), n, Up), n, Right), n, Left)
  }

  // ---------------------------------------------------------------------
  // What a line reads from a grid

  lemma ViewFacts(g: Grid, line: seq<Coord>, n: nat)
    requires Within(line, g) && WellFormed(g, n)
    ensures AllConsistent(View(g, line))
    ensures Full(g) ==> AllOccupied(View(g, line))
    ensures AllCleared(g) ==> FlagsClear(View(g, line))
  {
  }

  /**
   * One line leaves every key off the line alone, leaves the line holding
   * the processed cells, and keeps the grid well formed.
   */
  lemma ApplyLineEffect(g: Grid, line: seq<Coord>, n: nat)
    requires Within(line, g) && Distinct(line) && WellFormed(g, n)
    ensures forall k :: k in g && k !in line ==> ApplyLine(g, line)[k] == g[k]
    ensures View(ApplyLine(g, line), line) == ProcessLine(View(g, line))
    ensures WellFormed(ApplyLine(g, line), n)
  {
    var s := ProcessLine(View(g, line));
    WriteAt(g, line, s);
    ViewWrite(g, line, s);
    ProcessLineConserves(View(g, line));
    var r := ApplyLine(g, line);
    forall k | k in r ensures Consistent(r[k]) {
      if k in line {
        var i :| 0 <= i < |line| && line[i] == k;
      }
    }
  }

  lemma {:induction false} ApplyLinesWellFormed(g: Grid, lines: seq<seq<Coord>>, n: nat)
    requires LinesFit(g, lines) && WellFormed(g, n)
    ensures WellFormed(ApplyLines(g, lines), n)
    decreases |lines|
  {
    if lines != [] {
      ApplyLineEffect(g, lines[0], n);
      ApplyLinesWellFormed(ApplyLine(g, lines[0]), lines[1..], n);
    }
  }

  /** Keys on none of the lines keep their cells. */
  lemma {:induction false} ApplyLinesFrame(g: Grid, lines: seq<seq<Coord>>, n: nat, k: Coord)
    requires LinesFit(g, lines) && WellFormed(g, n) && k in g
    requires forall i :: 0 <= i < |lines| ==> k !in lines[i]
    ensures ApplyLines(g, lines)[k] == g[k]
    decreases |lines|
  {
    if lines != [] {
      ApplyLineEffect(g, lines[0], n);
      forall i | 0 <= i < |lines| - 1 ensures k !in lines[1..][i] {
        assert lines[1..][i] == lines[i + 1];
      }
      ApplyLinesFrame(ApplyLine(g, lines[0]), lines[1..], n, k);
    }
  }

  /** Lines without a common key are processed independently of each other. */
  lemma {:induction false} ApplyLinesApart(g: Grid, lines: seq<seq<Coord>>, n: nat)
    requires LinesFit(g, lines) && LinesApart(lines) && WellFormed(g, n)
    ensures forall i :: 0 <= i < |lines| ==> View(ApplyLines(g, lines), lines[i]) == ProcessLine(View(g, lines[i]))
    decreases |lines|
  {
    if lines != [] {
      var g' := ApplyLine(g, lines[0]);
      var rest := lines[1..];
      ApplyLineEffect(g, lines[0], n);
      assert LinesApart(rest) by {
        forall i, j, p | 0 <= i < j < |rest| && p in rest[i] ensures p !in rest[j] {
          assert rest[i] == lines[i + 1] && rest[j] == lines[j + 1];
        }
      }
      ApplyLinesApart(g', rest, n);
      var r := ApplyLines(g, lines);
      assert r == ApplyLines(g', rest);
      forall i | 0 <= i < |lines| ensures View(r, lines[i]) == ProcessLine(View(g, lines[i])) {
        if i == 0 {
          forall j | 0 <= j < |lines[0]| ensures r[lines[0][j]] == g'[lines[0][j]] {
            var k := lines[0][j];
            forall m | 0 <= m < |rest| ensures k !in rest[m] {
              assert rest[m] == lines[m + 1];
            }
            ApplyLinesFrame(g', rest, n, k);
          }
        } else {
          assert rest[i - 1] == lines[i];
          forall j | 0 <= j < |lines[i]| ensures g'[lines[i][j]] == g[lines[i][j]] {
            assert lines[i][j] in lines[i];
          }
          assert View(g', lines[i]) == View(g, lines[i]);
        }
      }
    }
  }

  // ---------------------------------------------------------------------
  // Conservation over the whole grid

  /** The sum of all numbers on the grid. */
  ghost function GridTotal(g: Grid, n: nat): int
    requires g.Keys == Keys(n)
  {
    KeyOrderCovers(n);
    Total(View(g, KeyOrder(n)))
  }

  /** How many cells hold a number. */
  ghost function GridOccupied(g: Grid, n: nat): nat
    requires g.Keys == Keys(n)
  {
    KeyOrderCovers(n);
    Occupied(View(g, KeyOrder(n)))
  }

  /** A line's move keeps the sum of the grid and never adds a number. */
  lemma ApplyLineConserves(g: Grid, line: seq<Coord>, n: nat)
    requires Within(line, g) && Distinct(line) && WellFormed(g, n)
    ensures GridTotal(ApplyLine(g, line), n) == GridTotal(g, n)
    ensures GridOccupied(ApplyLine(g, line), n) <= GridOccupied(g, n)
  {
    KeyOrderCovers(n);
    ViewFacts(g, line, n);
    ProcessLineConserves(View(g, line));
    WriteMeasures(g, KeyOrder(n), line, ProcessLine(View(g, line)));
  }

  /**
   * processCells keeps the sum of the numbers on the grid and never adds a
   * number: a move only slides and merges.
   */
  lemma {:induction false} ApplyLinesConserves(g: Grid, lines: seq<seq<Coord>>, n: nat)
    requires LinesFit(g, lines) && WellFormed(g, n)
    ensures GridTotal(ApplyLines(g, lines), n) == GridTotal(g, n)
    ensures GridOccupied(ApplyLines(g, lines), n) <= GridOccupied(g, n)
    decreases |lines|
  {
    if lines != [] {
      ApplyLineConserves(g, lines[0], n);
      ApplyLineEffect(g, lines[0], n);
      ApplyLinesConserves(ApplyLine(g, lines[0]), lines[1..], n);
    }
  }

  // ---------------------------------------------------------------------
  // Full grids

  /** Once the grid has an empty cell, processing more lines leaves one. */
  lemma {:induction false} GapPersists(g: Grid, lines: seq<seq<Coord>>, n: nat)
    requires LinesFit(g, lines) && WellFormed(g, n) && !Full(g)
    ensures !Full(ApplyLines(g, lines))
    decreases |lines|
  {
    if lines != [] {
      var line := lines[0];
      var g' := ApplyLine(g, line);
      ApplyLineEffect(g, line, n);
      assert !Full(g') by {
        var k :| k in g && Empty(g[k]);
        if k in line {
          var i :| 0 <= i < |line| && line[i] == k;
          ViewFacts(g, line, n);
          assert Empty(View(g, line)[i]);
          GapSurvives(View(g, line));
          var j :| 0 <= j < |line| && Empty(ProcessLine(View(g, line))[j]);
          assert Empty(View(g', line)[j]);
        } else {
          assert Empty(g'[k]);
        }
      }
      GapPersists(g', lines[1..], n);
    }
  }

  /** Along every line, no two neighbouring cells hold the same value. */
  ghost predicate LinesStuck(g: Grid, lines: seq<seq<Coord>>)
  {
    forall i :: 0 <= i < |lines| && Within(lines[i], g) ==> NoEqualNeighbours(View(g, lines[i]))
  }

  lemma LinesStuckCons(g: Grid, lines: seq<seq<Coord>>)
    requires lines != [] && Within(lines[0], g)
    ensures LinesStuck(g, lines) <==> NoEqualNeighbours(View(g, lines[0])) && LinesStuck(g, lines[1..])
  {
    var rest := lines[1..];
    if NoEqualNeighbours(View(g, lines[0])) && LinesStuck(g, rest) {
      forall i | 0 <= i < |lines| && Within(lines[i], g) ensures NoEqualNeighbours(View(g, lines[i])) {
        if i > 0 {
          assert rest[i - 1] == lines[i];
        }
      }
    }
    if LinesStuck(g, lines) {
      forall i | 0 <= i < |rest| && Within(rest[i], g) ensures NoEqualNeighbours(View(g, rest[i])) {
        assert rest[i] == lines[i + 1];
      }
    }
  }

  /** A full, unmerged line with no equal neighbours is written back as it was. */
  lemma StuckLineHolds(g: Grid, line: seq<Coord>, n: nat)
    requires Within(line, g) && Distinct(line) && WellFormed(g, n) && Full(g) && AllCleared(g)
    requires NoEqualNeighbours(View(g, line))
    ensures ApplyLine(g, line) == g
  {
    ViewFacts(g, line, n);
    StuckLineUnchanged(View(g, line));
    WriteView(g, line);
  }

  /** A full, unmerged line with two equal neighbours leaves an empty cell on the grid. */
  lemma PairedLineEmptiesCell(g: Grid, line: seq<Coord>, n: nat)
    requires Within(line, g) && Distinct(line) && WellFormed(g, n) && Full(g) && AllCleared(g)
    requires !NoEqualNeighbours(View(g, line))
    ensures !Full(ApplyLine(g, line))
  {
    ViewFacts(g, line, n);
    ApplyLineEffect(g, line, n);
    PairedLineFreesCell(View(g, line));
    var j :| 0 <= j < |line| && Empty(ProcessLine(View(g, line))[j]);
    assert Empty(View(ApplyLine(g, line), line)[j]);
  }

  /**
   * On a full grid with every merged flag clear, a sequence of lines either
   * meets no two equal neighbours and changes nothing, or leaves an empty cell.
   */
  lemma {:induction false} StuckOrGap(g: Grid, lines: seq<seq<Coord>>, n: nat)
    requires LinesFit(g, lines) && WellFormed(g, n) && Full(g) && AllCleared(g)
    ensures LinesStuck(g, lines) ==> ApplyLines(g, lines) == g
    ensures !LinesStuck(g, lines) ==> !Full(ApplyLines(g, lines))
    decreases |lines|
  {
    if lines != [] {
      var line := lines[0];
      var rest := lines[1..];
      LinesStuckCons(g, lines);
      assert ApplyLines(g, lines) == ApplyLines(ApplyLine(g, line), rest);
      if NoEqualNeighbours(View(g, line)) {
        StuckLineHolds(g, line, n);
        StuckOrGap(g, rest, n);
      } else {
        PairedLineEmptiesCell(g, line, n);
        ApplyLineEffect(g, line, n);
        GapPersists(ApplyLine(g, line), rest, n);
      }
    }
  }

  /** q is the cell just below p, in the next row down (row y = 0 is the top). */
  predicate Below(p: Coord, q: Coord)
  {
    q.0 == p.0 && q.1 == p.1 + 1
  }

  /** q is the cell just right of p. */
  predicate RightOf(p: Coord, q: Coord)
  {
    q.0 == p.0 + 1 && q.1 == p.1
  }

  /** No cell has an equal neighbour above it. */
  ghost predicate NoVerticalPair(g: Grid)
  {
    forall p, q :: p in g && q in g && Below(p, q) ==> g[p].value != g[q].value
  }

  /** No cell has an equal neighbour to its right. */
  ghost predicate NoHorizontalPair(g: Grid)
  {
    forall p, q :: p in g && q in g && RightOf(p, q) ==> g[p].value != g[q].value
  }

  /** No move could merge anything. */
  ghost predicate NoAdjacentEqual(g: Grid)
  {
    NoVerticalPair(g) && NoHorizontalPair(g)
  }

  /** Neighbours j and j + 1 on line i of direction d are the cells at Point(d, n, i, j) and Point(d, n, i, j + 1). */
  lemma LinePair(g: Grid, n: nat, d: Direction, i: int, j: int)
    requires n >= 1 && g.Keys == Keys(n) && 0 <= i < n && 0 <= j && j + 1 < n
    ensures |DirectionLines(d, n)| == n && |DirectionLines(d, n)[i]| == n && Within(DirectionLines(d, n)[i], g)
    ensures Point(d, n, i, j) in g && Point(d, n, i, j + 1) in g
    ensures View(g, DirectionLines(d, n)[i])[j] == g[Point(d, n, i, j)]
    ensures View(g, DirectionLines(d, n)[i])[j + 1] == g[Point(d, n, i, j + 1)]
  {
    DirectionShape(d, n);
    DirectionFits(g, n, d);
    PointInGrid(d, n, i, j);
    PointInGrid(d, n, i, j + 1);
  }

  /** Two neighbours on an up or down line are vertical neighbours on the grid. */
  lemma ColumnPairs(g: Grid, n: nat, d: Direction, i: int, j: int)
    requires n >= 1 && g.Keys == Keys(n) && (d == Up || d == Down) && 0 <= i < n && 0 <= j && j + 1 < n
    requires NoVerticalPair(g)
    ensures |DirectionLines(d, n)| == n && |DirectionLines(d, n)[i]| == n && Within(DirectionLines(d, n)[i], g)
    ensures View(g, DirectionLines(d, n)[i])[j].value != View(g, DirectionLines(d, n)[i])[j + 1].value
  {
    LinePair(g, n, d, i, j);
    var p, q := Point(d, n, i, j), Point(d, n, i, j + 1);
    if d == Up {
      assert Below(p, q);
    } else {
      assert Below(q, p);
    }
  }

  lemma ColumnsStuckIf(g: Grid, n: nat, d: Direction)
    requires n >= 1 && g.Keys == Keys(n) && (d == Up || d == Down) && NoVerticalPair(g)
    ensures LinesStuck(g, DirectionLines(d, n))
  {
    var lines := DirectionLines(d, n);
    DirectionFits(g, n, d);
    forall i | 0 <= i < |lines| && Within(lines[i], g) ensures NoEqualNeighbours(View(g, lines[i])) {
      forall j | 0 <= j && j + 1 < |lines[i]| ensures View(g, lines[i])[j].value != View(g, lines[i])[j + 1].value {
        ColumnPairs(g, n, d, i, j);
      }
    }
  }

  /** Where two vertical neighbours sit on the up and down lines. */
  lemma VerticalPoints(n: int, p: Coord, q: Coord)
    requires Below(p, q)
    ensures Point(Up, n, n - 1 - p.0, p.1) == p && Point(Up, n, n - 1 - p.0, p.1 + 1) == q
    ensures Point(Down, n, n - 1 - p.0, n - 1 - q.1) == q && Point(Down, n, n - 1 - p.0, n - 1 - q.1 + 1) == p
  {
  }

  lemma ColumnPairOnLine(g: Grid, n: nat, d: Direction, p: Coord, q: Coord)
    requires n >= 1 && g.Keys == Keys(n) && (d == Up || d == Down) && p in g && q in g && Below(p, q)
    requires LinesStuck(g, DirectionLines(d, n))
    ensures g[p].value != g[q].value
  {
    KeyBounds(n, p);
    KeyBounds(n, q);
    var i := n - 1 - p.0;
    var j := if d == Up then p.1 else n - 1 - q.1;
    LinePair(g, n, d, i, j);
    var v := View(g, DirectionLines(d, n)[i]);
    assert NoEqualNeighbours(v);
    assert v[j].value != v[j + 1].value;
    VerticalPoints(n, p, q);
  }

  lemma ColumnsStuckOnlyIf(g: Grid, n: nat, d: Direction)
    requires n >= 1 && g.Keys == Keys(n) && (d == Up || d == Down) && LinesStuck(g, DirectionLines(d, n))
    ensures NoVerticalPair(g)
  {
    forall p, q | p in g && q in g && Below(p, q) ensures g[p].value != g[q].value {
      ColumnPairOnLine(g, n, d, p, q);
    }
  }

  /** The up and down lines are the columns, read in opposite orders. */
  lemma ColumnsStuck(g: Grid, n: nat, d: Direction)
    requires n >= 1 && g.Keys == Keys(n) && (d == Up || d == Down)
    ensures LinesStuck(g, DirectionLines(d, n)) <==> NoVerticalPair(g)
  {
    if NoVerticalPair(g) {
      ColumnsStuckIf(g, n, d);
    }
    if LinesStuck(g, DirectionLines(d, n)) {
      ColumnsStuckOnlyIf(g, n, d);
    }
  }

  /** Two neighbours on a left or right line are horizontal neighbours on the grid. */
  lemma RowPairs(g: Grid, n: nat, d: Direction, i: int, j: int)
    requires n >= 1 && g.Keys == Keys(n) && (d == Left || d == Right) && 0 <= i < n && 0 <= j && j + 1 < n
    requires NoHorizontalPair(g)
    ensures |DirectionLines(d, n)| == n && |DirectionLines(d, n)[i]| == n && Within(DirectionLines(d, n)[i], g)
    ensures View(g, DirectionLines(d, n)[i])[j].value != View(g, DirectionLines(d, n)[i])[j + 1].value
  {
    LinePair(g, n, d, i, j);
    var p, q := Point(d, n, i, j), Point(d, n, i, j + 1);
    if d == Left {
      assert RightOf(p, q);
    } else {
      assert RightOf(q, p);
    }
  }

  lemma RowsStuckIf(g: Grid, n: nat, d: Direction)
    requires n >= 1 && g.Keys == Keys(n) && (d == Left || d == Right) && NoHorizontalPair(g)
    ensures LinesStuck(g, DirectionLines(d, n))
  {
    var lines := DirectionLines(d, n);
    DirectionFits(g, n, d);
    forall i | 0 <= i < |lines| && Within(lines[i], g) ensures NoEqualNeighbours(View(g, lines[i])) {
      forall j | 0 <= j && j + 1 < |lines[i]| ensures View(g, lines[i])[j].value != View(g, lines[i])[j + 1].value {
        RowPairs(g, n, d, i, j);
      }
    }
  }

  /** Where two horizontal neighbours sit on the left and right lines. */
  lemma HorizontalPoints(n: int, p: Coord, q: Coord)
    requires RightOf(p, q)
    ensures Point(Left, n, n - 1 - p.1, p.0) == p && Point(Left, n, n - 1 - p.1, p.0 + 1) == q
    ensures Point(Right, n, n - 1 - p.1, n - 1 - q.0) == q && Point(Right, n, n - 1 - p.1, n - 1 - q.0 + 1) == p
  {
  }

  lemma RowPairOnLine(g: Grid, n: nat, d: Direction, p: Coord, q: Coord)
    requires n >= 1 && g.Keys == Keys(n) && (d == Left || d == Right) && p in g && q in g && RightOf(p, q)
    requires LinesStuck(g, DirectionLines(d, n))
    ensures g[p].value != g[q].value
  {
    KeyBounds(n, p);
    KeyBounds(n, q);
    var i := n - 1 - p.1;
    var j := if d == Left then p.0 else n - 1 - q.0;
    LinePair(g, n, d, i, j);
    var v := View(g, DirectionLines(d, n)[i]);
    assert NoEqualNeighbours(v);
    assert v[j].value != v[j + 1].value;
    HorizontalPoints(n, p, q);
  }

  lemma RowsStuckOnlyIf(g: Grid, n: nat, d: Direction)
    requires n >= 1 && g.Keys == Keys(n) && (d == Left || d == Right) && LinesStuck(g, DirectionLines(d, n))
    ensures NoHorizontalPair(g)
  {
    forall p, q | p in g && q in g && RightOf(p, q) ensures g[p].value != g[q].value {
      RowPairOnLine(g, n, d, p, q);
    }
  }

  /** The right and left lines are the rows, read in opposite orders. */
  lemma RowsStuck(g: Grid, n: nat, d: Direction)
    requires n >= 1 && g.Keys == Keys(n) && (d == Left || d == Right)
    ensures LinesStuck(g, DirectionLines(d, n)) <==> NoHorizontalPair(g)
  {
    if NoHorizontalPair(g) {
      RowsStuckIf(g, n, d);
    }
    if LinesStuck(g, DirectionLines(d, n)) {
      RowsStuckOnlyIf(g, n, d);
    }
  }

  /** One trial move of the lookahead, as StuckOrGap and GapPersists describe it. */
  lemma TrialMove(g: Grid, n: nat, d: Direction)
    requires n >= 1 && WellFormed(g, n)
    ensures WellFormed(Trial(g, n, d), n)
    ensures !Full(g) ==> !Full(Trial(g, n, d))
    ensures Full(g) && AllCleared(g) && LinesStuck(g, DirectionLines(d, n)) ==> Trial(g, n, d) == g
    ensures Full(g) && AllCleared(g) && !LinesStuck(g, DirectionLines(d, n)) ==> !Full(Trial(g, n, d))
  {
    DirectionFits(g, n, d);
    ApplyLinesWellFormed(g, DirectionLines(d, n), n);
    if !Full(g) {
      GapPersists(g, DirectionLines(d, n), n);
    } else if AllCleared(g) {
      StuckOrGap(g, DirectionLines(d, n), n);
    }
  }

  /** A vertical pair frees a cell in the first trial move, and the cell stays free. */
  lemma VerticalPairFreesCell(g: Grid, n: nat)
    requires n >= 1 && WellFormed(g, n) && Full(g) && AllCleared(g) && !NoVerticalPair(g)
    ensures !Full(Lookahead(g, n))
  {
    ColumnsStuck(g, n, Down);
    TrialMove(g, n, Down);
    var g1 := Trial(g, n, Down);
    TrialMove(g1, n, Up);
    var g2 := Trial(g1, n, Up);
    TrialMove(g2, n, Right);
    var g3 := Trial(g2, n, Right);
    TrialMove(g3, n, Left);
  }

  /** With no vertical pair the first two trial moves change nothing. */
  lemma ColumnsHold(g: Grid, n: nat)
    requires n >= 1 && WellFormed(g, n) && Full(g) && AllCleared(g) && NoVerticalPair(g)
    ensures Trial(Trial(g, n, Down), n, Up) == g
  {
    ColumnsStuck(g, n, Down);
    TrialMove(g, n, Down);
    ColumnsStuck(g, n, Up);
    TrialMove(g, n, Up);
  }

  /** With no vertical pair, a horizontal pair frees a cell in the third trial move. */
  lemma HorizontalPairFreesCell(g: Grid, n: nat)
    requires n >= 1 && WellFormed(g, n) && Full(g) && AllCleared(g) && NoVerticalPair(g) && !NoHorizontalPair(g)
    ensures !Full(Lookahead(g, n))
  {
    ColumnsHold(g, n);
    RowsStuck(g, n, Right);
    TrialMove(g, n, Right);
    var g3 := Trial(g, n, Right);
    TrialMove(g3, n, Left);
  }

  /** With no equal neighbours at all, none of the trial moves changes anything. */
  lemma StuckGridHolds(g: Grid, n: nat)
    requires n >= 1 && WellFormed(g, n) && Full(g) && AllCleared(g) && NoAdjacentEqual(g)
    ensures Lookahead(g, n) == g
  {
    ColumnsHold(g, n);
    RowsStuck(g, n, Right);
    TrialMove(g, n, Right);
    RowsStuck(g, n, Left);
    TrialMove(g, n, Left);
  }

  /**
   * The end-of-game test on a full grid whose flags print cleared: after the
   * four trial moves the grid is still full exactly when no two neighbouring
   * cells are equal, and in that case the trial moves changed nothing.
   */
  lemma EndGameLookahead(g: Grid, n: nat)
    requires n >= 1 && WellFormed(g, n) && Full(g) && AllCleared(g)
    ensures Full(Lookahead(g, n)) <==> NoAdjacentEqual(g)
    ensures NoAdjacentEqual(g) ==> Lookahead(g, n) == g
  {
    if !NoVerticalPair(g) {
      VerticalPairFreesCell(g, n);
    } else if !NoHorizontalPair(g) {
      HorizontalPairFreesCell(g, n);
    } else {
      StuckGridHolds(g, n);
    }
  }

  /**
   * A move in direction d processes each of its n lines on its own: line i
   * afterwards holds what ProcessLine makes of line i before, and the sum of
   * the grid is kept.
   */
  lemma MoveByLines(g: Grid, n: nat, d: Direction)
    requires n >= 1 && WellFormed(g, n)
    ensures |DirectionLines(d, n)| == n && LinesFit(g, DirectionLines(d, n))
    ensures forall i :: 0 <= i < n ==>
      View(ApplyLines(g, DirectionLines(d, n)), DirectionLines(d, n)[i]) == ProcessLine(View(g, DirectionLines(d, n)[i]))
    ensures GridTotal(ApplyLines(g, DirectionLines(d, n)), n) == GridTotal(g, n)
  {
    DirectionFits(g, n, d);
    ApplyLinesApart(g, DirectionLines(d, n), n);
    ApplyLinesConserves(g, DirectionLines(d, n), n);
  }

  // ---------------------------------------------------------------------
  // processCells for any ranges inside the grid

  /**
   * processCells with any ranges inside the grid: its lines fit the grid, and
   * the move keeps the grid well formed and the sum of its numbers, and never
   * adds a number.
   */
  lemma MoveConserves(g: Grid, n: nat, xRange: (int, int), yRange: (int, int), horizontal: bool)
    requires n >= 1 && WellFormed(g, n) && InGrid(xRange, n) && InGrid(yRange, n)
    ensures LinesFit(g, RangeArray(n, xRange, yRange, horizontal))
    ensures WellFormed(ApplyLines(g, RangeArray(n, xRange, yRange, horizontal)), n)
    ensures GridTotal(ApplyLines(g, RangeArray(n, xRange, yRange, horizontal)), n) == GridTotal(g, n)
    ensures GridOccupied(ApplyLines(g, RangeArray(n, xRange, yRange, horizontal)), n) <= GridOccupied(g, n)
  {
    RangeLines(n, xRange, yRange, horizontal);
    var lines := RangeArray(n, xRange, yRange, horizontal);
    ApplyLinesWellFormed(g, lines, n);
    ApplyLinesConserves(g, lines, n);
  }

  // ---------------------------------------------------------------------
  // The writes the engine's loops perform

  /** One push of the slide/merge loop as the two cell updates the loop makes. */
  lemma WriteStep(g: Grid, line: seq<Coord>, s: Line, i: nat)
    requires |s| == |line| && Within(line, g) && Distinct(line) && i < |line|
    ensures Write(g, line, s)[line[i]] == s[i]
    ensures i + 1 < |line| ==> Write(g, line, s)[line[i + 1]] == s[i + 1]
    ensures i + 1 < |line| && Empty(s[i + 1]) ==>
      Write(g, line, Step(s, i)) == Write(g, line, s)[line[i + 1] := Assigned(s[i + 1], s[i].value)][line[i] := Emptied(s[i])]
    ensures i + 1 < |line| && !Empty(s[i + 1]) && MergeGuard(s[i], s[i + 1]) ==>
      Write(g, line, Step(s, i)) == Write(g, line, s)[line[i + 1] := Doubled(s[i + 1])][line[i] := Emptied(s[i])]
    ensures i + 1 >= |line| || (!Empty(s[i + 1]) && !MergeGuard(s[i], s[i + 1])) ==> Step(s, i) == s
  {
    WriteAt(g, line, s);
    if i + 1 < |line| {
      var a := if Empty(s[i + 1]) then Assigned(s[i + 1], s[i].value) else Doubled(s[i + 1]);
      WriteUpdate(g, line, s, i + 1, a);
      WriteUpdate(g, line, s[i + 1 := a], i, Emptied(s[i]));
    }
  }

  /** The swap removeEmptyCells makes once it finds a number c steps ahead. */
  lemma WriteSeek(g: Grid, line: seq<Coord>, t: Line, i: nat, c: nat)
    requires |t| == |line| && Within(line, g) && Distinct(line) && 1 <= c && i + c < |line| && !Empty(t[i + c])
    ensures Write(g, line, t)[line[i + c]] == t[i + c]
    ensures Write(g, line, Seek(t, i, c))
         == Write(g, line, t)[line[i] := Assigned(t[i], t[i + c].value)][line[i + c] := Emptied(t[i + c])]
  {
    WriteAt(g, line, t);
    var a := Assigned(t[i], t[i + c].value);
    WriteUpdate(g, line, t, i, a);
    WriteUpdate(g, line, t[i := a], i + c, Emptied(t[i + c]));
  }

  /** Writing a line twice keeps only the second write. */
  lemma WriteTwice(g: Grid, line: seq<Coord>, s: Line, s': Line)
    requires |s| == |line| && |s'| == |line| && Within(line, g) && Distinct(line)
    ensures Write(Write(g, line, s), line, s') == Write(g, line, s')
  {
    var w := Write(g, line, s);
    WriteAt(g, line, s);
    WriteAt(w, line, s');
    WriteAt(g, line, s');
    forall k | k in g ensures Write(w, line, s')[k] == Write(g, line, s')[k] {
      if k in line {
        var i :| 0 <= i < |line| && line[i] == k;
      }
    }
  }
}
