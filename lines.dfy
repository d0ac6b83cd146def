/**
 * What `processCells` and `removeEmptyCells` (bin/game-engine/game-engine.js)
 * do to ONE line of keys, stated on the sequence of cell states read along
 * that line in key order. The grid-level engine writes the result back.
 */
module Lines {
  import opened Cells

  type Line = seq<CellState>

  /** The guard of the merge branch: equal values and an unmerged SOURCE cell. */
  predicate MergeGuard(cell: CellState, next: CellState)
  {
    cell.value == next.value && Mergeable(cell)
  }

  /** Position i pushes its cell into its successor (the source's loop body). */
  function Step(s: Line, i: nat): (r: Line)
    requires i < |s|
    ensures |r| == |s|
    ensures r == s || Empty(r[i])
    ensures forall j :: 0 <= j < |s| && j != i && j != i + 1 ==> r[j] == s[j]
  {
    if i + 1 < |s| then
      var cell, next := s[i], s[i + 1];
      if Empty(next) then
        s[i + 1 := Assigned(next, cell.value)][i := Emptied(cell)]
      else if MergeGuard(cell, next) then
        s[i + 1 := Doubled(next)][i := Emptied(cell)]
      else
        s
    else
      s
  }

  /** Whether Step(s, i) takes the merge branch. */
  predicate Merges(s: Line, i: nat)
  {
    i + 1 < |s| && !Empty(s[i + 1]) && MergeGuard(s[i], s[i + 1])
  }

  /** The first k iterations of the slide/merge loop. */
  function Slide(s: Line, k: nat): (r: Line)
    requires k <= |s|
    ensures |r| == |s|
    ensures forall j :: k < j < |s| ==> r[j] == s[j]
  {
    if k == 0 then s else Step(Slide(s, k - 1), k - 1)
  }

  /** The inner while loop of removeEmptyCells at index i, having looked c steps ahead. */
  function Seek(s: Line, i: nat, c: nat): (r: Line)
    requires i < |s| && 1 <= c
    ensures |r| == |s|
    ensures r == s || !Empty(r[i])
    ensures forall j :: 0 <= j < i + c && j < |s| && j != i ==> r[j] == s[j]
    decreases |s| - c
  {
    if i + c < |s| then
      if !Empty(s[i + c]) then
        s[i := Assigned(s[i], s[i + c].value)][i + c := Emptied(s[i + c])]
      else
        Seek(s, i, c + 1)
    else
      s
  }

  /** One iteration of removeEmptyCells' for loop. */
  function Fill(s: Line, i: nat): (r: Line)
    requires i < |s|
    ensures |r| == |s|
    ensures r == s || (Empty(s[i]) && !Empty(r[i]))
    ensures forall j :: 0 <= j < i ==> r[j] == s[j]
  {
    if Empty(s[i]) then Seek(s, i, 1) else s
  }

  /** The first k iterations of removeEmptyCells' for loop. */
  function Compact(s: Line, k: nat): (r: Line)
    requires k <= |s|
    ensures |r| == |s|
  {
    if k == 0 then s else Fill(Compact(s, k - 1), k - 1)
  }

  /** A whole line: the slide/merge pass, then compaction. */
  function ProcessLine(s: Line): (r: Line)
    ensures |r| == |s|
  {
    Compact(Slide(s, |s|), |s|)
  }

  // ---------------------------------------------------------------------
  // Measures

  /** A cell's number, 0 for empty. */
  function Weight(c: CellState): int
  {
    if c.value.Num? then c.value.n else 0
  }

  function Total(s: Line): int
  {
    if s == [] then 0 else Weight(s[0]) + Total(s[1..])
  }

  function Occupied(s: Line): nat
  {
    if s == [] then 0 else (if Empty(s[0]) then 0 else 1) + Occupied(s[1..])
  }

  ghost predicate AllConsistent(s: Line)
  {
    forall i :: 0 <= i < |s| ==> Consistent(s[i])
  }

  ghost predicate AllOccupied(s: Line)
  {
    forall i :: 0 <= i < |s| ==> !Empty(s[i])
  }

  ghost predicate FlagsClear(s: Line)
  {
    forall i :: 0 <= i < |s| ==> !s[i].modified
  }

  /** No two neighbours along the line hold the same value. */
  ghost predicate NoEqualNeighbours(s: Line)
  {
    forall i :: 0 <= i && i + 1 < |s| ==> s[i].value != s[i + 1].value
  }

  lemma {:induction false} TotalUpdate(s: Line, i: nat, c: CellState)
    requires i < |s|
    ensures Total(s[i := c]) == Total(s) - Weight(s[i]) + Weight(c)
  {
    if i > 0 {
      assert s[i := c][1..] == s[1..][i - 1 := c];
      TotalUpdate(s[1..], i - 1, c);
    }
  }

  lemma {:induction false} OccupiedUpdate(s: Line, i: nat, c: CellState)
    requires i < |s|
    ensures Occupied(s[i := c]) == Occupied(s) - (if Empty(s[i]) then 0 else 1) + (if Empty(c) then 0 else 1)
  {
    if i > 0 {
      assert s[i := c][1..] == s[1..][i - 1 := c];
      OccupiedUpdate(s[1..], i - 1, c);
    }
  }

  /** At most every cell is occupied, and exactly when each one is. */
  lemma {:induction false} OccupiedBound(s: Line)
    ensures Occupied(s) <= |s|
    ensures Occupied(s) == |s| <==> AllOccupied(s)
  {
    if s != [] {
      OccupiedBound(s[1..]);
      if AllOccupied(s) {
        assert AllOccupied(s[1..]) by {
          forall i | 0 <= i < |s| - 1 ensures !Empty(s[1..][i]) {
            assert s[1..][i] == s[i + 1];
          }
        }
      }
      if AllOccupied(s[1..]) && !Empty(s[0]) {
        forall i | 0 <= i < |s| ensures !Empty(s[i]) {
          if i > 0 { assert s[i] == s[1..][i - 1]; }
        }
      }
    }
  }

  // ---------------------------------------------------------------------
  // The slide/merge pass

  /** Replacing two neighbours changes the measures by what the two cells weigh. */
  lemma PairUpdate(s: Line, i: nat, a: CellState, b: CellState)
    requires i + 1 < |s|
    ensures Total(s[i + 1 := a][i := b]) == Total(s) - Weight(s[i]) - Weight(s[i + 1]) + Weight(a) + Weight(b)
    ensures Occupied(s[i + 1 := a][i := b])
         == Occupied(s) - (if Empty(s[i]) then 0 else 1) - (if Empty(s[i + 1]) then 0 else 1)
            + (if Empty(a) then 0 else 1) + (if Empty(b) then 0 else 1)
  {
    TotalUpdate(s, i + 1, a);
    TotalUpdate(s[i + 1 := a], i, b);
    OccupiedUpdate(s, i + 1, a);
    OccupiedUpdate(s[i + 1 := a], i, b);
  }

  /**
   * One push conserves the total, keeps every cache consistent, and lowers
   * the number of occupied cells by exactly one when it merges and by
   * nothing otherwise.
   */
  lemma StepConserves(s: Line, i: nat)
    requires i < |s| && AllConsistent(s)
    ensures AllConsistent(Step(s, i))
    ensures Total(Step(s, i)) == Total(s)
    ensures Occupied(Step(s, i)) == Occupied(s) - (if Merges(s, i) then 1 else 0)
  {
    if i + 1 < |s| {
      var cell, next := s[i], s[i + 1];
      if Empty(next) {
        var a := Assigned(next, cell.value);
        PairUpdate(s, i, a, Emptied(cell));
        assert Weight(a) == Weight(cell) && Weight(next) == 0;
        assert Step(s, i) == s[i + 1 := a][i := Emptied(cell)];
      } else if MergeGuard(cell, next) {
        var a := Doubled(next);
        assert Consistent(next);
        PairUpdate(s, i, a, Emptied(cell));
        assert Weight(a) == Weight(cell) + Weight(next);
        assert Step(s, i) == s[i + 1 := a][i := Emptied(cell)];
      }
    }
  }

  /** A merge needs the SOURCE cell unmerged; it doubles the successor and empties the source. */
  lemma MergeEffect(s: Line, i: nat)
    requires i + 1 < |s| && Consistent(s[i + 1]) && !Empty(s[i + 1])
    ensures s[i].modified ==> Step(s, i) == s
    ensures Merges(s, i) ==>
      var r := Step(s, i);
      && r[i + 1].value == Num(2 * s[i + 1].value.n) && r[i + 1].modified
      && Empty(r[i]) && !r[i].modified
      && forall j :: 0 <= j < |s| && j != i && j != i + 1 ==> r[j] == s[j]
  {
  }

  lemma {:induction false} SlideConserves(s: Line, k: nat)
    requires k <= |s| && AllConsistent(s)
    ensures AllConsistent(Slide(s, k))
    ensures Total(Slide(s, k)) == Total(s)
    ensures Occupied(Slide(s, k)) <= Occupied(s)
  {
    if k > 0 {
      SlideConserves(s, k - 1);
      StepConserves(Slide(s, k - 1), k - 1);
    }
  }

  // ---------------------------------------------------------------------
  // Compaction

  lemma {:induction false} SeekConserves(s: Line, i: nat, c: nat)
    requires i < |s| && 1 <= c && Empty(s[i]) && AllConsistent(s)
    ensures AllConsistent(Seek(s, i, c))
    ensures Total(Seek(s, i, c)) == Total(s)
    ensures Occupied(Seek(s, i, c)) == Occupied(s)
    decreases |s| - c
  {
    if i + c < |s| {
      if !Empty(s[i + c]) {
        var a := Assigned(s[i], s[i + c].value);
        var t := s[i := a];
        TotalUpdate(s, i, a);
        TotalUpdate(t, i + c, Emptied(s[i + c]));
        OccupiedUpdate(s, i, a);
        OccupiedUpdate(t, i + c, Emptied(s[i + c]));
      } else {
        SeekConserves(s, i, c + 1);
      }
    }
  }

  lemma {:induction false} CompactConserves(s: Line, k: nat)
    requires k <= |s| && AllConsistent(s)
    ensures AllConsistent(Compact(s, k))
    ensures Total(Compact(s, k)) == Total(s)
    ensures Occupied(Compact(s, k)) == Occupied(s)
  {
    if k > 0 {
      CompactConserves(s, k - 1);
      if Empty(Compact(s, k - 1)[k - 1]) {
        SeekConserves(Compact(s, k - 1), k - 1, 1);
      }
    }
  }

  /** Processing a line conserves the total and never adds an occupied cell. */
  lemma ProcessLineConserves(s: Line)
    requires AllConsistent(s)
    ensures AllConsistent(ProcessLine(s))
    ensures Total(ProcessLine(s)) == Total(s)
    ensures Occupied(ProcessLine(s)) <= Occupied(s)
  {
    SlideConserves(s, |s|);
    CompactConserves(Slide(s, |s|), |s|);
  }

  function Values(s: Line): (r: seq<Value>)
    ensures |r| == |s|
  {
    seq(|s|, i requires 0 <= i < |s| => s[i].value)
  }

  /** The numbers of a value sequence, in order. */
  function Filled(vs: seq<Value>): (r: seq<Value>)
    ensures |r| <= |vs|
  {
    if vs == [] then []
    else (if vs[0] == Blank then [] else [vs[0]]) + Filled(vs[1..])
  }

  function Blanks(k: nat): (r: seq<Value>)
  {
    seq(k, i => Blank)
  }

  lemma {:induction false} FilledAppend(a: seq<Value>, b: seq<Value>)
    ensures Filled(a + b) == Filled(a) + Filled(b)
  {
    if a != [] {
      assert (a + b)[1..] == a[1..] + b;
      FilledAppend(a[1..], b);
    } else {
      assert a + b == b;
    }
  }

  lemma {:induction false} FilledBlank(b: seq<Value>)
    requires forall i :: 0 <= i < |b| ==> b[i] == Blank
    ensures Filled(b) == []
  {
    if b != [] {
      FilledBlank(b[1..]);
    }
  }

  /** Once an index below k is blank, every later index is blank. */
  ghost predicate Settled(vs: seq<Value>, k: nat)
  {
    forall i, j :: 0 <= i < j < |vs| && i < k && vs[i] == Blank ==> vs[j] == Blank
  }

  /** Moving a number back over a run of blanks keeps the numbers and their order. */
  lemma MoveOverGap(vs: seq<Value>, i: nat, j: nat)
    requires i < j < |vs| && vs[j] != Blank
    requires forall m :: i <= m < j ==> vs[m] == Blank
    ensures Filled(vs[i := vs[j]][j := Blank]) == Filled(vs)
  {
    var v := vs[j];
    var ws := vs[i := v][j := Blank];
    var pre, gap, post := vs[..i], vs[i..j], vs[j + 1..];
    assert vs == (pre + gap) + ([v] + post);
    assert ws == (pre + [v]) + (gap + post);
    FilledBlank(gap);
    FilledAppend(pre + gap, [v] + post);
    FilledAppend(pre, gap);
    FilledAppend(pre + [v], gap + post);
    FilledAppend(pre, [v]);
    FilledAppend(gap, post);
    FilledAppend([v], post);
  }

  lemma {:induction false} SeekSettles(s: Line, i: nat, c: nat)
    requires i < |s| && 1 <= c && Empty(s[i]) && Settled(Values(s), i)
    requires forall m :: i < m < i + c && m < |s| ==> Empty(s[m])
    ensures Filled(Values(Seek(s, i, c))) == Filled(Values(s))
    ensures Settled(Values(Seek(s, i, c)), i + 1)
    decreases |s| - c
  {
    var vs := Values(s);
    if i + c < |s| {
      if !Empty(s[i + c]) {
        var r := Seek(s, i, c);
        var ws := Values(r);
        var v := vs[i + c];
        assert ws == vs[i := v][i + c := Blank];
        assert forall m :: 0 <= m < i ==> vs[m] != Blank;
        assert forall m :: 0 <= m <= i ==> ws[m] != Blank;
        MoveOverGap(vs, i, i + c);
      } else {
        SeekSettles(s, i, c + 1);
      }
    } else {
      assert forall m :: i <= m < |s| ==> vs[m] == Blank;
    }
  }

  lemma {:induction false} CompactSettles(s: Line, k: nat)
    requires k <= |s|
    ensures Filled(Values(Compact(s, k))) == Filled(Values(s))
    ensures Settled(Values(Compact(s, k)), k)
  {
    if k > 0 {
      CompactSettles(s, k - 1);
      var t := Compact(s, k - 1);
      if Empty(t[k - 1]) {
        SeekSettles(t, k - 1, 1);
      }
    }
  }

  lemma {:induction false} SettledIsPacked(vs: seq<Value>)
    requires Settled(vs, |vs|)
    ensures vs == Filled(vs) + Blanks(|vs| - |Filled(vs)|)
  {
    if vs != [] {
      if vs[0] == Blank {
        FilledBlank(vs);
        assert vs == Blanks(|vs|);
      } else {
        var rest := vs[1..];
        assert Settled(rest, |rest|) by {
          forall i, j | 0 <= i < j < |rest| && rest[i] == Blank ensures rest[j] == Blank {
            assert vs[i + 1] == Blank;
          }
        }
        SettledIsPacked(rest);
        assert vs == [vs[0]] + rest;
      }
    }
  }

  /**
   * Compaction moves the line's numbers to the front, in their original
   * order, and leaves only blanks behind them.
   */
  lemma CompactPacks(s: Line)
    ensures var vs := Filled(Values(s));
      Values(Compact(s, |s|)) == vs + Blanks(|s| - |vs|)
  {
    CompactSettles(s, |s|);
    SettledIsPacked(Values(Compact(s, |s|)));
  }

  // ---------------------------------------------------------------------
  // Full lines, as the end-of-game lookahead meets them

  /** A full, unmerged line with no equal neighbours is left exactly as it is. */
  lemma {:induction false} StuckLineUnchanged(s: Line)
    requires AllOccupied(s) && NoEqualNeighbours(s)
    ensures ProcessLine(s) == s
  {
    forall k | 0 <= k <= |s| ensures Slide(s, k) == s {
      SlideStuck(s, k);
    }
    CompactFull(s, |s|);
  }

  lemma {:induction false} SlideStuck(s: Line, k: nat)
    requires k <= |s| && AllOccupied(s) && NoEqualNeighbours(s)
    ensures Slide(s, k) == s
  {
    if k > 0 {
      SlideStuck(s, k - 1);
    }
  }

  lemma {:induction false} CompactFull(s: Line, k: nat)
    requires k <= |s| && AllOccupied(s)
    ensures Compact(s, k) == s
  {
    if k > 0 {
      CompactFull(s, k - 1);
    }
  }

  /**
   * On a full, unmerged line, the first k pushes either changed nothing and
   * met no equal neighbours, or already freed a cell.
   */
  lemma {:induction false} SlideFindsPair(s: Line, k: nat)
    requires k <= |s| && AllOccupied(s) && FlagsClear(s) && AllConsistent(s)
    ensures || (Slide(s, k) == s && forall i :: 0 <= i < k && i + 1 < |s| ==> s[i].value != s[i + 1].value)
            || Occupied(Slide(s, k)) < |s|
  {
    OccupiedBound(s);
    if k > 0 {
      SlideFindsPair(s, k - 1);
      var t := Slide(s, k - 1);
      SlideConserves(s, k - 1);
      StepConserves(t, k - 1);
    }
  }

  /** A full, unmerged line with two equal neighbours comes out with an empty cell. */
  lemma PairedLineFreesCell(s: Line)
    requires AllOccupied(s) && FlagsClear(s) && AllConsistent(s) && !NoEqualNeighbours(s)
    ensures exists i :: 0 <= i < |s| && Empty(ProcessLine(s)[i])
  {
    SlideFindsPair(s, |s|);
    SlideConserves(s, |s|);
    CompactConserves(Slide(s, |s|), |s|);
    OccupiedBound(ProcessLine(s));
  }

  /** A line with an empty cell still has one after processing. */
  lemma GapSurvives(s: Line)
    requires AllConsistent(s) && exists i :: 0 <= i < |s| && Empty(s[i])
    ensures exists i :: 0 <= i < |s| && Empty(ProcessLine(s)[i])
  {
    OccupiedBound(s);
    ProcessLineConserves(s);
    OccupiedBound(ProcessLine(s));
  }

  // ---------------------------------------------------------------------
  // Worked rows (the row as the left move reads it, x = 0 first)

  /** A tile holding v, its cache filled and its flag clear. */
  function Tile(v: int): CellState
  {
    CellState(Num(v), Num(2 * v), false)
  }

  /** A cell as `new Cell()` leaves it. */
  const Gap := CellState(Blank, Blank, false)

  /** [2,2,4,4] gives [4,8,_,_]: two separate merges, not one chained 8. */
  lemma TwoPairsMergeSeparately()
    ensures Values(ProcessLine([Tile(2), Tile(2), Tile(4), Tile(4)])) == [Num(4), Num(8), Blank, Blank]
  {
  }

  /** [2,2,2,2] gives [4,4,_,_]. */
  lemma FourTwosMakeTwoFours()
    ensures Values(ProcessLine([Tile(2), Tile(2), Tile(2), Tile(2)])) == [Num(4), Num(4), Blank, Blank]
  {
  }

  /**
   * [2,2,_,4] gives [8,_,_,_]: the 4 made by the first merge slides into the
   * gap, the slide does not carry its merged flag, and it merges again.
   */
  lemma SlidMergeMergesAgain()
    ensures Values(ProcessLine([Tile(2), Tile(2), Gap, Tile(4)])) == [Num(8), Blank, Blank, Blank]
  {
    var s := [Tile(2), Tile(2), Gap, Tile(4)];
    var merged := CellState(Num(4), Num(8), true);
    assert Slide(s, 1) == [Gap, merged, Gap, Tile(4)];
    assert Slide(s, 2) == [Gap, Gap, Tile(4), Tile(4)];
    var slid := [Gap, Gap, Gap, CellState(Num(8), Num(16), true)];
    assert Slide(s, 3) == slid;
    assert Slide(s, 4) == slid;
    var packed := [Tile(8), Gap, Gap, Gap];
    assert Seek(slid, 0, 3) == packed;
    assert Seek(slid, 0, 1) == packed;
    assert Compact(slid, 1) == packed;
    assert Seek(packed, 1, 2) == packed;
    assert Seek(packed, 1, 1) == packed;
    assert Seek(packed, 2, 1) == packed;
    assert Compact(slid, 2) == packed;
    assert Compact(slid, 3) == packed;
  }

  /**
   * An all-empty line keeps its values but not its state: pushing an empty
   * cell into an empty cell sets the last cache to 0.
   */
  lemma EmptyLineTouchesCache()
    ensures Values(ProcessLine([Gap, Gap, Gap, Gap])) == Values([Gap, Gap, Gap, Gap])
    ensures ProcessLine([Gap, Gap, Gap, Gap])[3].doubleNumber == Num(0)
  {
    var s := [Gap, Gap, Gap, Gap];
    var zero := CellState(Blank, Num(0), false);
    assert Slide(s, 1) == [Gap, zero, Gap, Gap];
    assert Slide(s, 2) == [Gap, Gap, zero, Gap];
    var slid := [Gap, Gap, Gap, zero];
    assert Slide(s, 3) == slid;
    assert Slide(s, 4) == slid;
    assert Seek(slid, 0, 3) == slid;
    assert Seek(slid, 0, 2) == slid;
    assert Seek(slid, 0, 1) == slid;
    assert Seek(slid, 1, 2) == slid;
    assert Seek(slid, 1, 1) == slid;
    assert Seek(slid, 2, 1) == slid;
    assert Compact(slid, 1) == slid;
    assert Compact(slid, 2) == slid;
    assert Compact(slid, 3) == slid;
  }
}
