/**
 * The cell mapping a Matrix owns, with keys modelled as coordinate pairs
 * instead of "x:y" strings, and the two ways the engine looks at it: the
 * cells read along a line of keys (View) and a line's cells written back
 * (Write).
 */
module Grids {
  import opened Cells
  import opened Lines

  type Coord = (int, int)

  type Grid = map<Coord, CellState>

  /** Every (x, y) with 0 <= x, y < n. */
  function Keys(n: nat): set<Coord>
  {
    set x: int, y: int | 0 <= x < n && 0 <= y < n :: (x, y)
  }

  lemma KeyBounds(n: nat, p: Coord)
    requires p in Keys(n)
    ensures 0 <= p.0 < n && 0 <= p.1 < n
  {
  }

  /** Exactly the n*n coordinates are present and every cache is consistent. */
  ghost predicate WellFormed(g: Grid, n: nat)
  {
    g.Keys == Keys(n) && forall k :: k in g ==> Consistent(g[k])
  }

  /** `isFull()`: no cell is empty. */
  ghost predicate Full(g: Grid)
  {
    forall k :: k in g ==> !Empty(g[k])
  }

  ghost predicate AllCleared(g: Grid)
  {
    forall k :: k in g ==> !g[k].modified
  }

  predicate Distinct(line: seq<Coord>)
  {
    forall i, j :: 0 <= i < j < |line| ==> line[i] != line[j]
  }

  predicate Within(line: seq<Coord>, g: Grid)
  {
    forall i :: 0 <= i < |line| ==> line[i] in g
  }

  /** The cells along a line, in key order. */
  function View(g: Grid, line: seq<Coord>): (r: Line)
    requires Within(line, g)
    ensures |r| == |line|
  {
    seq(|line|, i requires 0 <= i < |line| => g[line[i]])
  }

  /** The grid with the line's cells replaced, key by key, by s. */
  function Write(g: Grid, line: seq<Coord>, s: Line): (r: Grid)
    requires |s| == |line| && Within(line, g)
    ensures r.Keys == g.Keys
  {
    if line == [] then g else Write(g[line[0] := s[0]], line[1..], s[1..])
  }

  /** Write puts s[i] at line[i] and leaves every other key alone. */
  lemma {:induction false} WriteAt(g: Grid, line: seq<Coord>, s: Line)
    requires |s| == |line| && Within(line, g) && Distinct(line)
    ensures forall i :: 0 <= i < |line| ==> Write(g, line, s)[line[i]] == s[i]
    ensures forall k :: k in g && k !in line ==> Write(g, line, s)[k] == g[k]
  {
    if line != [] {
      var g' := g[line[0] := s[0]];
      WriteAt(g', line[1..], s[1..]);
      forall i | 0 <= i < |line| ensures Write(g, line, s)[line[i]] == s[i] {
        if i > 0 {
          assert line[i] == line[1..][i - 1];
        } else {
          assert line[0] !in line[1..] by {
            forall j | 0 <= j < |line| - 1 ensures line[1..][j] != line[0] {
              assert line[1..][j] == line[j + 1];
            }
          }
        }
      }
    }
  }

  lemma ViewWrite(g: Grid, line: seq<Coord>, s: Line)
    requires |s| == |line| && Within(line, g) && Distinct(line)
    ensures View(Write(g, line, s), line) == s
  {
    WriteAt(g, line, s);
  }

  /** Writing back what was read changes nothing. */
  lemma WriteView(g: Grid, line: seq<Coord>)
    requires Within(line, g) && Distinct(line)
    ensures Write(g, line, View(g, line)) == g
  {
    var w := Write(g, line, View(g, line));
    WriteAt(g, line, View(g, line));
    forall k | k in g ensures w[k] == g[k] {
      if k in line {
        var i :| 0 <= i < |line| && line[i] == k;
      }
    }
  }

  /** Changing one entry of what is written is one more map update. */
  lemma WriteUpdate(g: Grid, line: seq<Coord>, s: Line, i: nat, c: CellState)
    requires |s| == |line| && Within(line, g) && Distinct(line) && i < |line|
    ensures Write(g, line, s[i := c]) == Write(g, line, s)[line[i] := c]
  {
    var a, b := Write(g, line, s[i := c]), Write(g, line, s)[line[i] := c];
    WriteAt(g, line, s[i := c]);
    WriteAt(g, line, s);
    forall k | k in g ensures a[k] == b[k] {
      if k in line {
        var j :| 0 <= j < |line| && line[j] == k;
      }
    }
  }

  /** Reading a list of distinct keys after one key changed. */
  lemma ViewAfterUpdate(g: Grid, keys: seq<Coord>, k: Coord, c: CellState)
    requires Within(keys, g) && Distinct(keys) && k in g
    ensures k !in keys ==> View(g[k := c], keys) == View(g, keys)
    ensures forall p :: 0 <= p < |keys| && keys[p] == k ==> View(g[k := c], keys) == View(g, keys)[p := c]
  {
  }

  lemma ViewTail(g: Grid, line: seq<Coord>)
    requires Within(line, g) && line != []
    ensures View(g, line) == [g[line[0]]] + View(g, line[1..])
  {
  }

  /**
   * Over any list of distinct keys that contains the line, writing s changes
   * the total and the number of occupied cells by the difference between s
   * and what the line held.
   */
  lemma {:induction false} WriteMeasures(g: Grid, keys: seq<Coord>, line: seq<Coord>, s: Line)
    requires |s| == |line| && Within(line, g) && Distinct(line)
    requires Within(keys, g) && Distinct(keys) && forall i :: 0 <= i < |line| ==> line[i] in keys
    ensures Total(View(Write(g, line, s), keys)) == Total(View(g, keys)) - Total(View(g, line)) + Total(s)
    ensures Occupied(View(Write(g, line, s), keys))
         == Occupied(View(g, keys)) - Occupied(View(g, line)) + Occupied(s)
  {
    if line != [] {
      var k := line[0];
      var g' := g[k := s[0]];
      assert k in keys;
      var p :| 0 <= p < |keys| && keys[p] == k;
      ViewAfterUpdate(g, keys, k, s[0]);
      TotalUpdate(View(g, keys), p, s[0]);
      OccupiedUpdate(View(g, keys), p, s[0]);
      assert k !in line[1..] by {
        forall j | 0 <= j < |line| - 1 ensures line[1..][j] != k {
          assert line[1..][j] == line[j + 1];
        }
      }
      assert View(g', line[1..]) == View(g, line[1..]);
      ViewTail(g, line);
      assert forall i :: 0 <= i < |line| - 1 ==> line[1..][i] in keys by {
        forall i | 0 <= i < |line| - 1 ensures line[1..][i] in keys {
          assert line[1..][i] == line[i + 1];
        }
      }
      WriteMeasures(g', keys, line[1..], s[1..]);
      assert s == [s[0]] + s[1..];
    }
  }

  /** `resetCells`: every flag cleared, nothing else touched. */
  function ResetAll(g: Grid): (r: Grid)
    ensures r.Keys == g.Keys && AllCleared(r)
    ensures forall k :: k in g ==> r[k].value == g[k].value && r[k].doubleNumber == g[k].doubleNumber
  {
    map k | k in g :: Cleared(g[k])
  }

  /** On a grid whose flags are already clear, resetCells changes nothing. */
  lemma ResetAllIdle(g: Grid)
    requires AllCleared(g)
    ensures ResetAll(g) == g
  {
  }
}
