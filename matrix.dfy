/**
 * The grid object (bin/game-engine/matrix/matrix.js). The source keeps one
 * Cell object per "x:y" key; here the mapping holds each cell's state as a
 * record, so that a deep copy is a value copy and `object-hash` equality is
 * equality of the whole mapping (values, caches and flags).
 */
module Matrices {
  import opened Wrappers
  import opened Cells
  import opened Grids

  /**
   * What `addRandomCell` may leave once it has decided to seed: a full grid
   * as it was, otherwise the grid with one formerly empty cell set to 2.
   */
  ghost predicate Seeded(before: Grid, after: Grid)
    ensures Seeded(before, after) ==> after.Keys == before.Keys
    ensures Seeded(before, after) ==> forall k :: k in before && !Empty(before[k]) ==> after[k] == before[k]
  {
    if Full(before) then after == before
    else exists k :: k in before && Empty(before[k]) && after == before[k := Assigned(before[k], Num(2))]
  }

  class Matrix {
    const gameSize: nat
    /** `this.matrix` */
    var cells: Grid
    /** `this.oldMatrix`, the deep copy taken by copyMatrix */
    var oldMatrix: Grid
    /** `this.previousHash`; None is the initial '' that no grid hashes to */
    var previousHash: Option<Grid>

    ghost predicate Valid()
      reads this
    {
      WellFormed(cells, gameSize)
    }

    /** n*n fresh empty cells, then one random 2. */
    constructor (gameSize: nat)
      ensures Valid() && this.gameSize == gameSize
      ensures oldMatrix == map[]
      ensures previousHash == Some(cells)
      ensures AllCleared(cells)
      ensures gameSize > 0 ==>
        exists k :: k in cells && cells[k] == Assigned(Created(Blank), Num(2))
          && forall j :: j in cells && j != k ==> cells[j] == Created(Blank)
    {
      this.gameSize := gameSize;
      cells := map[];
      oldMatrix := map[];
      previousHash := None;
      new;
      for x := 0 to gameSize
        invariant forall k :: k in cells <==> 0 <= k.0 < x && 0 <= k.1 < gameSize
        invariant forall k :: k in cells ==> cells[k] == Created(Blank)
        invariant previousHash == None && oldMatrix == map[]
      {
        for y := 0 to gameSize
          invariant forall k :: k in cells <==> (0 <= k.0 < x && 0 <= k.1 < gameSize) || (k.0 == x && 0 <= k.1 < y)
          invariant forall k :: k in cells ==> cells[k] == Created(Blank)
          invariant previousHash == None && oldMatrix == map[]
        {
          cells := cells[(x, y) := Created(Blank)];
        }
      }
      assert cells.Keys == Keys(gameSize);
      ghost var blank := cells;
      if gameSize > 0 {
        assert (0, 0) in blank && !Full(blank);
      }
      AddRandomCell();
      if gameSize > 0 {
        ghost var k :| k in blank && Empty(blank[k]) && cells == blank[k := Assigned(blank[k], Num(2))];
        assert cells[k] == Assigned(Created(Blank), Num(2));
      }
    }

    method CopyMatrix()
      modifies this`oldMatrix
      ensures oldMatrix == cells
    {
      oldMatrix := cells;
    }

    method RestoreMatrix()
      modifies this`cells
      ensures cells == oldMatrix
    {
      cells := oldMatrix;
    }

    method IsFull() returns (full: bool)
      ensures full <==> Full(cells)
    {
      var emptyCells := set k | k in cells && Empty(cells[k]);
      full := |emptyCells| == 0;
      if !Full(cells) {
        var k :| k in cells && Empty(cells[k]);
        assert k in emptyCells;
      }
    }

    method GetCell(x: int, y: int) returns (c: Option<CellState>)
      ensures c.Some? <==> (x, y) in cells
      ensures c.Some? ==> c.value == cells[(x, y)]
    {
      c := if (x, y) in cells then Some(cells[(x, y)]) else None;
    }

    /** A missing key, the end-of-line null included, yields null. */
    method GetCellKey(key: Option<Coord>) returns (c: Option<CellState>)
      ensures c.Some? <==> key.Some? && key.value in cells
      ensures c.Some? ==> c.value == cells[key.value]
    {
      c := if key.Some? && key.value in cells then Some(cells[key.value]) else None;
    }

    /** Compares the grid with the fingerprint and records the new one. */
    method HasChanged() returns (changed: bool)
      modifies this`previousHash
      ensures changed <==> old(previousHash) != Some(cells)
      ensures previousHash == Some(cells)
    {
      if previousHash == Some(cells) {
        return false;
      }
      previousHash := Some(cells);
      return true;
    }

    /** The largest number in the grid, or 0 when there is none. */
    method GetMaxValue() returns (maxValue: int)
      ensures 0 <= maxValue
      ensures forall k :: k in cells && cells[k].value.Num? ==> cells[k].value.n <= maxValue
      ensures maxValue == 0 || exists k :: k in cells && cells[k].value == Num(maxValue)
    {
      maxValue := 0;
      var keys := cells.Keys;
      while keys != {}
        invariant keys <= cells.Keys
        invariant 0 <= maxValue
        invariant forall k :: k in cells && k !in keys && cells[k].value.Num? ==> cells[k].value.n <= maxValue
        invariant maxValue == 0 || exists k :: k in cells && cells[k].value == Num(maxValue)
        decreases keys
      {
        var key :| key in keys;
        var v := cells[key].value;
        if v.Num? && v.n > maxValue {
          maxValue := v.n;
        }
        keys := keys - {key};
      }
    }

    /** Sets one empty cell, chosen freely, to 2 when the grid differs from its fingerprint. */
    method AddRandomCell()
      modifies this`cells, this`previousHash
      ensures old(Valid()) ==> Valid()
      ensures old(previousHash) == Some(old(cells)) ==> cells == old(cells) && previousHash == old(previousHash)
      ensures old(previousHash) != Some(old(cells)) ==> Seeded(old(cells), cells) && previousHash == Some(cells)
    {
      var changed := HasChanged();
      if changed {
        var emptyCells := set k | k in cells && Empty(cells[k]);
        if |emptyCells| > 0 {
          var randKey :| randKey in emptyCells;
          cells := cells[randKey := Assigned(cells[randKey], Num(2))];
        } else {
          assert forall k :: k in cells ==> k !in emptyCells;
        }
        previousHash := Some(cells);
      }
    }

    /** Clears every merged flag and fingerprints the result. */
    method ResetCells()
      modifies this`cells, this`previousHash
      ensures cells == ResetAll(old(cells)) && previousHash == Some(cells)
      ensures old(Valid()) ==> Valid()
    {
      ghost var start := cells;
      var keys := cells.Keys;
      while keys != {}
        invariant keys <= start.Keys && cells.Keys == start.Keys
        invariant forall k :: k in cells ==> cells[k] == if k in keys then start[k] else Cleared(start[k])
        decreases keys
      {
        var key :| key in keys;
        cells := cells[key := Cleared(cells[key])];
        keys := keys - {key};
      }
      assert cells == ResetAll(start);
      previousHash := Some(cells);
    }

    /** The snapshot for the renderer: row y holds the cells (0, y) .. (n-1, y). */
    method ConvertToArray() returns (rows: seq<seq<Value>>)
      requires Valid()
      ensures |rows| == gameSize
      ensures forall y :: 0 <= y < gameSize ==> |rows[y]| == gameSize
      ensures forall y, x :: 0 <= y < gameSize && 0 <= x < gameSize ==> rows[y][x] == cells[(x, y)].value
    {
      rows := [];
      for y := 0 to gameSize
        invariant |rows| == y
        invariant forall j :: 0 <= j < y ==> |rows[j]| == gameSize
        invariant forall j, x :: 0 <= j < y && 0 <= x < gameSize ==> rows[j][x] == cells[(x, j)].value
      {
        var row := [];
        for x := 0 to gameSize
          invariant |row| == x
          invariant forall i :: 0 <= i < x ==> row[i] == cells[(i, y)].value
        {
          assert (x, y) in Keys(gameSize);
          var c := GetCell(x, y);
          row := row + [c.value.value];
        }
        rows := rows + [row];
      }
    }
  }
}
