/**
 * The game engine object (bin/game-engine/game-engine.js): it owns the
 * Matrix and runs the moves, the random seeding and the end-of-game test.
 * Drawing and key handling are left out; `print` keeps only its effect on
 * the grid, resetCells.
 */
module GameEngines {
  import opened Wrappers
  import opened Cells
  import opened Lines
  import opened Grids
  import opened Matrices
  import opened Ranges
  import opened Moves

  /**
   * How one key press leaves the grid: after the move, a 2 is seeded as
   * addRandomCell does (only when the grid differs from the recorded
   * fingerprint), then every merged flag is cleared.
   */
  ghost predicate Turn(hashBefore: Option<Grid>, moved: Grid, after: Grid)
    ensures Turn(hashBefore, moved, after) ==> after.Keys == moved.Keys && AllCleared(after)
  {
    exists seeded :: (if hashBefore == Some(moved) then seeded == moved else Seeded(moved, seeded))
      && after == ResetAll(seeded)
  }

  /** What isEndGame's result means on the grid a turn leaves behind once it is full. */
  lemma EndGameVerdict(printed: Grid, n: nat, over: bool, after: Grid)
    requires n >= 1 && WellFormed(printed, n) && Full(printed) && AllCleared(printed)
    requires over <==> Full(Lookahead(printed, n))
    requires after == if over then Lookahead(printed, n) else printed
    ensures after == printed
    ensures over <==> NoAdjacentEqual(printed)
  {
    EndGameLookahead(printed, n);
  }

  lemma TurnOf(hashBefore: Option<Grid>, moved: Grid, seeded: Grid, after: Grid)
    requires if hashBefore == Some(moved) then seeded == moved else Seeded(moved, seeded)
    requires after == ResetAll(seeded)
    ensures Turn(hashBefore, moved, after)
  {
  }

  /**
   * Seeding a grid that has an empty cell adds exactly one number, a 2, and
   * keeps the grid well formed.
   */
  lemma SeedAddsTwo(before: Grid, after: Grid, n: nat)
    requires WellFormed(before, n) && !Full(before) && Seeded(before, after)
    ensures WellFormed(after, n)
    ensures GridTotal(after, n) == GridTotal(before, n) + 2
    ensures GridOccupied(after, n) == GridOccupied(before, n) + 1
  {
    var k :| k in before && Empty(before[k]) && after == before[k := Assigned(before[k], Num(2))];
    assert after.Keys == before.Keys;
    assert forall q :: q in after ==> Consistent(after[q]) by {
      forall q | q in after ensures Consistent(after[q]) {
        if q != k {
          assert after[q] == before[q];
        }
      }
    }
    KeyOrderCovers(n);
    var keys := KeyOrder(n);
    var p :| 0 <= p < |keys| && keys[p] == k;
    ViewAfterUpdate(before, keys, k, Assigned(before[k], Num(2)));
    TotalUpdate(View(before, keys), p, Assigned(before[k], Num(2)));
    OccupiedUpdate(View(before, keys), p, Assigned(before[k], Num(2)));
  }

  /**
   * A press on a printed grid whose move gives that grid back adds no tile
   * and leaves the grid exactly as it was.
   */
  lemma IdleTurn(g: Grid, after: Grid)
    requires AllCleared(g) && Turn(Some(g), g, after)
    ensures after == g
  {
    ResetAllIdle(g);
  }

  class GameEngine {
    const gameSize: nat
    var matrix: Matrix

    ghost predicate Valid()
      reads this, matrix
    {
      gameSize >= 1 && matrix.gameSize == gameSize && matrix.Valid()
    }

    /** `setup()` without the key handler and the terminal writer: a first restart, building one Matrix. */
    constructor (gameSize: nat)
      requires gameSize >= 1
      ensures Valid() && this.gameSize == gameSize && fresh(matrix)
      ensures AllCleared(matrix.cells) && matrix.previousHash == Some(matrix.cells)
      ensures matrix.oldMatrix == map[]
      ensures exists k ::
        && k in matrix.cells && matrix.cells[k] == Assigned(Created(Blank), Num(2))
        && forall j :: j in matrix.cells && j != k ==> matrix.cells[j] == Created(Blank)
    {
      this.gameSize := gameSize;
      matrix := new Matrix(gameSize);
      new;
      // The rest of restart: the Matrix just built is its fresh Matrix.
      ResetAllIdle(matrix.cells);
      Print();
    }

    /** `restart`: a new Matrix, then print's resetCells. */
    method Restart()
      modifies this`matrix
      ensures fresh(matrix) && matrix.gameSize == gameSize && matrix.Valid()
      ensures matrix.oldMatrix == map[]
      ensures AllCleared(matrix.cells) && matrix.previousHash == Some(matrix.cells)
      ensures gameSize > 0 ==>
        exists k :: k in matrix.cells && matrix.cells[k] == Assigned(Created(Blank), Num(2))
          && forall j :: j in matrix.cells && j != k ==> matrix.cells[j] == Created(Blank)
    {
      matrix := new Matrix(gameSize);
      ResetAllIdle(matrix.cells);
      Print();
    }

    /** `print()` without the terminal writer: only its resetCells remains. */
    method Print()
      requires matrix.Valid()
      modifies matrix`cells, matrix`previousHash
      ensures matrix.Valid()
      ensures matrix.cells == ResetAll(old(matrix.cells)) && matrix.previousHash == Some(matrix.cells)
    {
      matrix.ResetCells();
    }

    /** removeEmptyCells(keySet): moves the numbers of the line to its first keys. */
    method RemoveEmptyCells(keySet: seq<Coord>)
      requires Within(keySet, matrix.cells) && Distinct(keySet)
      modifies matrix`cells
      ensures matrix.cells == Write(old(matrix.cells), keySet, Compact(View(old(matrix.cells), keySet), |keySet|))
    {
      ghost var g := matrix.cells;
      ghost var s0 := View(g, keySet);
      WriteView(g, keySet);
      for index := 0 to |keySet|
        invariant matrix.cells == Write(g, keySet, Compact(s0, index))
      {
        ghost var t := Compact(s0, index);
        WriteAt(g, keySet, t);
        var cell := matrix.GetCellKey(Some(keySet[index]));
        if Empty(cell.value) {
          var found := false;
          var count := 1;
          while !found
            invariant 1 <= count && index + count <= |keySet|
            invariant !found ==> matrix.cells == Write(g, keySet, t) && Seek(t, index, count) == Seek(t, index, 1)
            invariant found ==> matrix.cells == Write(g, keySet, Seek(t, index, 1))
            decreases if found then 0 else |keySet| - count + 1
          {
            if index + count < |keySet| {
              var nextCell := matrix.GetCellKey(Some(keySet[index + count]));
              if nextCell.Some? {
                if !Empty(nextCell.value) {
                  WriteSeek(g, keySet, t, index, count);
                  matrix.cells := matrix.cells[keySet[index] := Assigned(cell.value, nextCell.value.value)];
                  matrix.cells := matrix.cells[keySet[index + count] := Emptied(nextCell.value)];
                  found := true;
                } else {
                  count := count + 1;
                }
              } else {
                found := true;
              }
            } else {
              found := true;
            }
          }
        }
      }
    }

    /** The body processCells runs for one keySet: the slide/merge loop, then removeEmptyCells. */
    method ProcessKeySet(keySet: seq<Coord>)
      requires Within(keySet, matrix.cells) && Distinct(keySet)
      modifies matrix`cells
      ensures matrix.cells == ApplyLine(old(matrix.cells), keySet)
    {
      ghost var g := matrix.cells;
      ghost var s0 := View(g, keySet);
      WriteView(g, keySet);
      for count := 0 to |keySet|
        invariant matrix.cells == Write(g, keySet, Slide(s0, count))
      {
        ghost var s := Slide(s0, count);
        WriteStep(g, keySet, s, count);
        var key := keySet[count];
        var nextKey := if count + 1 < |keySet| then Some(keySet[count + 1]) else None;
        var cell := matrix.GetCellKey(Some(key));
        var nextCell := matrix.GetCellKey(nextKey);
        if nextCell.Some? {
          if Empty(nextCell.value) {
            matrix.cells := matrix.cells[nextKey.value := Assigned(nextCell.value, cell.value.value)];
            matrix.cells := matrix.cells[key := Emptied(cell.value)];
          } else if cell.value.value == nextCell.value.value && Mergeable(cell.value) {
            matrix.cells := matrix.cells[nextKey.value := Doubled(nextCell.value)];
            matrix.cells := matrix.cells[key := Emptied(cell.value)];
          }
        }
      }
      ghost var slid := Slide(s0, |keySet|);
      ViewWrite(g, keySet, slid);
      RemoveEmptyCells(keySet);
      WriteTwice(g, keySet, slid, Compact(slid, |keySet|));
    }

    /** processCells(xRange, yRange, horizontal): every line getRangeArray yields, in order. */
    method ProcessCells(xRange: (int, int), yRange: (int, int), horizontal: bool)
      requires Valid() && InGrid(xRange, gameSize) && InGrid(yRange, gameSize)
      modifies matrix`cells
      ensures Valid() && matrix.oldMatrix == old(matrix.oldMatrix) && matrix.previousHash == old(matrix.previousHash)
      ensures LinesFit(old(matrix.cells), RangeArray(gameSize, xRange, yRange, horizontal))
      ensures matrix.cells == ApplyLines(old(matrix.cells), RangeArray(gameSize, xRange, yRange, horizontal))
    {
      var matrixKeys := GetRangeArray(gameSize, xRange, yRange, horizontal);
      ghost var g := matrix.cells;
      MoveConserves(g, gameSize, xRange, yRange, horizontal);
      for li := 0 to |matrixKeys|
        invariant LinesFit(matrix.cells, matrixKeys[li..])
        invariant ApplyLines(matrix.cells, matrixKeys[li..]) == ApplyLines(g, matrixKeys)
      {
        ghost var rest := matrixKeys[li..];
        ApplyLinesCons(matrix.cells, rest);
        assert rest[0] == matrixKeys[li] && rest[1..] == matrixKeys[li + 1..];
        ProcessKeySet(matrixKeys[li]);
      }
      assert matrixKeys[|matrixKeys|..] == [];
    }

    /**
     * isEndGame(): copies the grid, tries down, up, right and left, and
     * reports whether the grid is still full. When it is not, the copy is
     * put back; when it is, the tried grid stays.
     */
    method IsEndGame() returns (over: bool)
      requires Valid()
      modifies matrix`cells, matrix`oldMatrix
      ensures Valid()
      ensures matrix.oldMatrix == old(matrix.cells)
      ensures over <==> Full(Lookahead(old(matrix.cells), gameSize))
      ensures matrix.cells == if over then Lookahead(old(matrix.cells), gameSize) else old(matrix.cells)
    {
      ghost var g := matrix.cells;
      ArgumentLines(gameSize);
      matrix.CopyMatrix();
      ProcessCells((gameSize - 1, 0), (gameSize - 1, 0), false);
      ghost var g1 := matrix.cells;
      assert g1 == Trial(g, gameSize, Down);
      ProcessCells((gameSize - 1, 0), (0, gameSize - 1), false);
      ghost var g2 := matrix.cells;
      assert g2 == Trial(g1, gameSize, Up);
      ProcessCells((gameSize - 1, 0), (gameSize - 1, 0), true);
      ghost var g3 := matrix.cells;
      assert g3 == Trial(g2, gameSize, Right);
      ProcessCells((0, gameSize - 1), (gameSize - 1, 0), true);
      assert matrix.cells == Trial(g3, gameSize, Left);
      over := matrix.IsFull();
      if over {
        return true;
      }
      matrix.RestoreMatrix();
      return false;
    }

    /**
     * The tail of arrowKeyPress: once the printed grid is full, isEndGame
     * decides. The game is over exactly when no two neighbouring cells are
     * equal, and either way the grid is left as it was printed.
     */
    method CheckEndGame() returns (gameOver: bool)
      requires Valid() && AllCleared(matrix.cells)
      modifies matrix`cells, matrix`oldMatrix
      ensures Valid() && matrix.cells == old(matrix.cells)
      ensures matrix.oldMatrix == if Full(matrix.cells) then matrix.cells else old(matrix.oldMatrix)
      ensures gameOver <==> Full(matrix.cells) && NoAdjacentEqual(matrix.cells)
    {
      ghost var printed := matrix.cells;
      gameOver := false;
      var full := matrix.IsFull();
      if full {
        gameOver := IsEndGame();
        EndGameVerdict(printed, gameSize, gameOver, matrix.cells);
      }
    }

    /** The middle of arrowKeyPress: addRandomCell, then print. */
    method SeedAndPrint()
      requires Valid()
      modifies matrix`cells, matrix`previousHash
      ensures Valid() && matrix.oldMatrix == old(matrix.oldMatrix)
      ensures Turn(old(matrix.previousHash), old(matrix.cells), matrix.cells)
      ensures matrix.previousHash == Some(matrix.cells) && AllCleared(matrix.cells)
    {
      ghost var h, moved := matrix.previousHash, matrix.cells;
      matrix.AddRandomCell();
      ghost var seeded := matrix.cells;
      Print();
      TurnOf(h, moved, seeded, matrix.cells);
    }

    /**
     * arrowKeyPress(xRange, yRange, horizontal): the move, a random 2, the
     * print's resetCells, and the end-of-game test once the grid is full.
     */
    method ArrowKeyPress(xRange: (int, int), yRange: (int, int), horizontal: bool) returns (gameOver: bool)
      requires Valid() && InGrid(xRange, gameSize) && InGrid(yRange, gameSize)
      modifies matrix`cells, matrix`oldMatrix, matrix`previousHash
      ensures Valid()
      ensures LinesFit(old(matrix.cells), RangeArray(gameSize, xRange, yRange, horizontal))
      ensures Turn(old(matrix.previousHash), ApplyLines(old(matrix.cells), RangeArray(gameSize, xRange, yRange, horizontal)), matrix.cells)
      ensures matrix.previousHash == Some(matrix.cells) && AllCleared(matrix.cells)
      ensures matrix.oldMatrix == if Full(matrix.cells) then matrix.cells else old(matrix.oldMatrix)
      ensures gameOver <==> Full(matrix.cells) && NoAdjacentEqual(matrix.cells)
    {
      ProcessCells(xRange, yRange, horizontal);
      SeedAndPrint();
      gameOver := CheckEndGame();
    }

    method PressLeft() returns (gameOver: bool)
      requires Valid()
      modifies matrix`cells, matrix`oldMatrix, matrix`previousHash
      ensures Valid()
      ensures Turn(old(matrix.previousHash), Trial(old(matrix.cells), gameSize, Left), matrix.cells)
      ensures matrix.previousHash == Some(matrix.cells) && AllCleared(matrix.cells)
      ensures matrix.oldMatrix == if Full(matrix.cells) then matrix.cells else old(matrix.oldMatrix)
      ensures gameOver <==> Full(matrix.cells) && NoAdjacentEqual(matrix.cells)
    {
      ArgumentLines(gameSize);
      gameOver := ArrowKeyPress((0, gameSize - 1), (gameSize - 1, 0), true);
    }

    method PressRight() returns (gameOver: bool)
      requires Valid()
      modifies matrix`cells, matrix`oldMatrix, matrix`previousHash
      ensures Valid()
      ensures Turn(old(matrix.previousHash), Trial(old(matrix.cells), gameSize, Right), matrix.cells)
      ensures matrix.previousHash == Some(matrix.cells) && AllCleared(matrix.cells)
      ensures matrix.oldMatrix == if Full(matrix.cells) then matrix.cells else old(matrix.oldMatrix)
      ensures gameOver <==> Full(matrix.cells) && NoAdjacentEqual(matrix.cells)
    {
      ArgumentLines(gameSize);
      gameOver := ArrowKeyPress((gameSize - 1, 0), (gameSize - 1, 0), true);
    }

    method PressUp() returns (gameOver: bool)
      requires Valid()
      modifies matrix`cells, matrix`oldMatrix, matrix`previousHash
      ensures Valid()
      ensures Turn(old(matrix.previousHash), Trial(old(matrix.cells), gameSize, Up), matrix.cells)
      ensures matrix.previousHash == Some(matrix.cells) && AllCleared(matrix.cells)
      ensures matrix.oldMatrix == if Full(matrix.cells) then matrix.cells else old(matrix.oldMatrix)
      ensures gameOver <==> Full(matrix.cells) && NoAdjacentEqual(matrix.cells)
    {
      ArgumentLines(gameSize);
      gameOver := ArrowKeyPress((gameSize - 1, 0), (0, gameSize - 1), false);
    }

    method PressDown() returns (gameOver: bool)
      requires Valid()
      modifies matrix`cells, matrix`oldMatrix, matrix`previousHash
      ensures Valid()
      ensures Turn(old(matrix.previousHash), Trial(old(matrix.cells), gameSize, Down), matrix.cells)
      ensures matrix.previousHash == Some(matrix.cells) && AllCleared(matrix.cells)
      ensures matrix.oldMatrix == if Full(matrix.cells) then matrix.cells else old(matrix.oldMatrix)
      ensures gameOver <==> Full(matrix.cells) && NoAdjacentEqual(matrix.cells)
    {
      ArgumentLines(gameSize);
      gameOver := ArrowKeyPress((gameSize - 1, 0), (gameSize - 1, 0), false);
    }
  }
}
