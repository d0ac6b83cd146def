/**
 * How a move direction becomes lines of keys (`getRangeArray` and its inner
 * `convertRange`, bin/game-engine/game-engine.js), and the four directions'
 * arguments (`left`, `right`, `up`, `down`).
 */
module Ranges {
  import opened Grids

  /** `convertRange([a, b])`: the inclusive run from a to b, downwards when a > b. */
  function Run(a: int, b: int): (r: seq<int>)
    ensures |r| == (if a > b then a - b else b - a) + 1
  {
    if a > b then seq(a - b + 1, i => a - i) else seq(b - a + 1, i => a + i)
  }

  /** The run starts at a, ends at b, and moves one step at a time towards b. */
  lemma RunIsInclusive(a: int, b: int)
    ensures var r := Run(a, b);
      && |r| >= 1 && r[0] == a && r[|r| - 1] == b
      && (a > b ==> forall i :: 0 <= i < |r| - 1 ==> r[i + 1] == r[i] - 1)
      && (a <= b ==> forall i :: 0 <= i < |r| - 1 ==> r[i + 1] == r[i] + 1)
  {
  }

  /** The keys in visiting order, one row per outer-loop step of getRangeArray. */
  function Rows(xs: seq<int>, ys: seq<int>, horizontal: bool): (rows: seq<seq<Coord>>)
    ensures |rows| == if horizontal then |ys| else |xs|
    ensures forall i :: 0 <= i < |rows| ==> |rows[i]| == if horizontal then |xs| else |ys|
  {
    if horizontal then seq(|ys|, i requires 0 <= i < |ys| => seq(|xs|, j requires 0 <= j < |xs| => (xs[j], ys[i])))
    else seq(|xs|, i requires 0 <= i < |xs| => seq(|ys|, j requires 0 <= j < |ys| => (xs[i], ys[j])))
  }

  function Flatten(rows: seq<seq<Coord>>): (r: seq<Coord>)
  {
    if rows == [] then [] else rows[0] + Flatten(rows[1..])
  }

  /** `for (count = 0; count < s.length; count += n) s.slice(count, count + n)` */
  function Chunks(s: seq<Coord>, n: nat): (r: seq<seq<Coord>>)
    requires n >= 1
    decreases |s|
  {
    if |s| == 0 then []
    else
      var m := if n < |s| then n else |s|;
      [s[..m]] + Chunks(s[m..], n)
  }

  /** The lines getRangeArray(xRange, yRange, horizontal) returns for game size n. */
  function RangeArray(n: nat, xRange: (int, int), yRange: (int, int), horizontal: bool): (r: seq<seq<Coord>>)
    requires n >= 1
  {
    Chunks(Flatten(Rows(Run(xRange.0, xRange.1), Run(yRange.0, yRange.1), horizontal)), n)
  }

  method ConvertRange(range: (int, int)) returns (outputRange: seq<int>)
    ensures outputRange == Run(range.0, range.1)
  {
    outputRange := [];
    if range.0 - range.1 > 0 {
      var count := range.0;
      while count > range.1 - 1
        invariant range.1 - 1 <= count <= range.0
        invariant outputRange == seq(range.0 - count, i => range.0 - i)
      {
        outputRange := outputRange + [count];
        count := count - 1;
      }
    } else {
      var count := range.0;
      while count < range.1 + 1
        invariant range.0 <= count <= range.1 + 1
        invariant outputRange == seq(count - range.0, i => range.0 + i)
      {
        outputRange := outputRange + [count];
        count := count + 1;
      }
    }
  }

  lemma FlattenSnoc(rows: seq<seq<Coord>>, i: nat)
    requires i < |rows|
    ensures Flatten(rows[..i + 1]) == Flatten(rows[..i]) + rows[i]
  {
    if i > 0 {
      assert rows[..i + 1][1..] == rows[1..][..i];
      assert rows[..i][1..] == rows[1..][..i - 1];
      FlattenSnoc(rows[1..], i - 1);
    } else {
      assert rows[..1] == [rows[0]];
    }
  }

  /** The two nested loops of getRangeArray that collect the keys. */
  method CollectKeys(xs: seq<int>, ys: seq<int>, horizontal: bool) returns (coords: seq<Coord>)
    ensures coords == Flatten(Rows(xs, ys, horizontal))
  {
    ghost var rows := Rows(xs, ys, horizontal);
    coords := [];
    if horizontal {
      for i := 0 to |ys|
        invariant coords == Flatten(rows[..i])
      {
        var y := ys[i];
        for j := 0 to |xs|
          invariant coords == Flatten(rows[..i]) + rows[i][..j]
        {
          coords := coords + [(xs[j], y)];
        }
        FlattenSnoc(rows, i);
      }
    } else {
      for i := 0 to |xs|
        invariant coords == Flatten(rows[..i])
      {
        var x := xs[i];
        for j := 0 to |ys|
          invariant coords == Flatten(rows[..i]) + rows[i][..j]
        {
          coords := coords + [(x, ys[j])];
        }
        FlattenSnoc(rows, i);
      }
    }
    assert rows[..|rows|] == rows;
  }

  /** The last loop of getRangeArray: cut the keys into lines of gameSize. */
  method SplitLines(coords: seq<Coord>, gameSize: nat) returns (output: seq<seq<Coord>>)
    requires gameSize >= 1
    ensures output == Chunks(coords, gameSize)
  {
    output := [];
    var count := 0;
    while count < |coords|
      invariant 0 <= count
      invariant output + Chunks(coords[if count < |coords| then count else |coords|..], gameSize)
             == Chunks(coords, gameSize)
      decreases |coords| - count
    {
      var end := if count + gameSize < |coords| then count + gameSize else |coords|;
      ChunksStep(coords, count, end, gameSize);
      output := output + [coords[count..end]];
      count := count + gameSize;
    }
  }

  /** One chunk taken off the front of the keys from count on. */
  lemma ChunksStep(coords: seq<Coord>, count: nat, end: nat, n: nat)
    requires n >= 1 && count < |coords| && end == if count + n < |coords| then count + n else |coords|
    ensures Chunks(coords[count..], n) == [coords[count..end]] + Chunks(coords[end..], n)
  {
    assert coords[count..][..end - count] == coords[count..end];
    assert coords[count..][end - count..] == coords[end..];
  }

  method GetRangeArray(gameSize: nat, xRange: (int, int), yRange: (int, int), horizontal: bool)
    returns (output: seq<seq<Coord>>)
    requires gameSize >= 1
    ensures output == RangeArray(gameSize, xRange, yRange, horizontal)
  {
    var xs := ConvertRange(xRange);
    var ys := ConvertRange(yRange);
    var coords := CollectKeys(xs, ys, horizontal);
    output := SplitLines(coords, gameSize);
  }

  /** A move key of the game. */
  datatype Direction = Left | Right | Up | Down

  /** The (xRange, yRange, horizontal) that the key's handler passes to arrowKeyPress. */
  function Arguments(d: Direction, n: int): (r: ((int, int), (int, int), bool))
    ensures r.2 <==> d == Left || d == Right
    ensures (if r.2 then r.1 else r.0) == (n - 1, 0)
    ensures n > 1 ==> ((if r.2 then r.0 else r.1) == (0, n - 1) <==> d == Left || d == Up)
  {
    match d
    case Left => ((0, n - 1), (n - 1, 0), true)
    case Right => ((n - 1, 0), (n - 1, 0), true)
    case Up => ((n - 1, 0), (0, n - 1), false)
    case Down => ((n - 1, 0), (n - 1, 0), false)
  }

  function DirectionLines(d: Direction, n: nat): seq<seq<Coord>>
    requires n >= 1
  {
    var (xr, yr, h) := Arguments(d, n);
    RangeArray(n, xr, yr, h)
  }

  /** The key handlers' literal ranges, as isEndGame also writes them out. */
  lemma ArgumentLines(n: nat)
    requires n >= 1
    ensures DirectionLines(Left, n) == RangeArray(n, (0, n - 1), (n - 1, 0), true)
    ensures DirectionLines(Right, n) == RangeArray(n, (n - 1, 0), (n - 1, 0), true)
    ensures DirectionLines(Up, n) == RangeArray(n, (n - 1, 0), (0, n - 1), false)
    ensures DirectionLines(Down, n) == RangeArray(n, (n - 1, 0), (n - 1, 0), false)
  {
  }

  /** Key j of line i for direction d: where the move reads its i-th line from. */
  function Point(d: Direction, n: int, i: int, j: int): Coord
  {
    match d
    case Left => (j, n - 1 - i)
    case Right => (n - 1 - j, n - 1 - i)
    case Up => (n - 1 - i, j)
    case Down => (n - 1 - i, n - 1 - j)
  }

  lemma {:induction false} FlattenLength(rows: seq<seq<Coord>>, n: nat)
    requires forall i :: 0 <= i < |rows| ==> |rows[i]| == n
    ensures |Flatten(rows)| == n * |rows|
  {
    if rows != [] {
      FlattenLength(rows[1..], n);
    }
  }

  /** Cutting rows of length n back into pieces of n gives the rows. */
  lemma {:induction false} ChunksOfFlatten(rows: seq<seq<Coord>>, n: nat)
    requires n >= 1 && forall i :: 0 <= i < |rows| ==> |rows[i]| == n
    ensures Chunks(Flatten(rows), n) == rows
  {
    if rows != [] {
      var s := Flatten(rows);
      FlattenLength(rows[1..], n);
      assert s == rows[0] + Flatten(rows[1..]);
      assert s[..n] == rows[0];
      assert s[n..] == Flatten(rows[1..]);
      ChunksOfFlatten(rows[1..], n);
    }
  }

  /** Both runs a direction uses, written out for n >= 1. */
  lemma EdgeRuns(n: nat, up: seq<int>, down: seq<int>)
    requires n >= 1 && up == Run(0, n - 1) && down == Run(n - 1, 0)
    ensures |up| == n && forall i :: 0 <= i < n ==> up[i] == i
    ensures |down| == n && forall i :: 0 <= i < n ==> down[i] == n - 1 - i
  {
  }

  /**
   * Each direction yields n lines of n keys, key j of line i being
   * Point(d, n, i, j). Row y = 0 is the top row. The left move reads the
   * rows bottom (y = n-1) first, each from x = 0; the right move the same
   * rows from x = n-1; the up move the columns right (x = n-1) first, each
   * from y = 0; the down move the same columns from y = n-1.
   */
  lemma DirectionShape(d: Direction, n: nat)
    requires n >= 1
    ensures |DirectionLines(d, n)| == n
    ensures forall i :: 0 <= i < n ==> |DirectionLines(d, n)[i]| == n
    ensures forall i, j :: 0 <= i < n && 0 <= j < n ==> DirectionLines(d, n)[i][j] == Point(d, n, i, j)
  {
    var (xr, yr, h) := Arguments(d, n);
    var xs, ys := Run(xr.0, xr.1), Run(yr.0, yr.1);
    var up, down := Run(0, n - 1), Run(n - 1, 0);
    EdgeRuns(n, up, down);
    assert xs == (if d == Left then up else down) && ys == (if d == Up then up else down);
    assert h == (d == Left || d == Right);
    var rows := Rows(xs, ys, h);
    assert |rows| == n && forall i :: 0 <= i < n ==> |rows[i]| == n;
    ChunksOfFlatten(rows, n);
    assert DirectionLines(d, n) == rows;
    RowsPoints(d, n, xs, ys, h);
  }

  /** Key j of line i of the rows built from the two edge runs of direction d. */
  lemma RowsPoints(d: Direction, n: nat, xs: seq<int>, ys: seq<int>, h: bool)
    requires |xs| == n && |ys| == n && h == (d == Left || d == Right)
    requires forall k :: 0 <= k < n ==> xs[k] == if d == Left then k else n - 1 - k
    requires forall k :: 0 <= k < n ==> ys[k] == if d == Up then k else n - 1 - k
    ensures forall i, j :: 0 <= i < n && 0 <= j < n ==> Rows(xs, ys, h)[i][j] == Point(d, n, i, j)
  {
  }

  /** The line and position at which direction d visits (x, y). */
  function Slot(d: Direction, n: int, x: int, y: int): (int, int)
  {
    match d
    case Left => (n - 1 - y, x)
    case Right => (n - 1 - y, n - 1 - x)
    case Up => (n - 1 - x, y)
    case Down => (n - 1 - x, n - 1 - y)
  }

  /** Slot inverts Point on the grid. */
  lemma SlotInvertsPoint(d: Direction, n: nat, x: int, y: int)
    requires 0 <= x < n && 0 <= y < n
    ensures 0 <= Slot(d, n, x, y).0 < n && 0 <= Slot(d, n, x, y).1 < n
    ensures Point(d, n, Slot(d, n, x, y).0, Slot(d, n, x, y).1) == (x, y)
  {
  }

  /** Point stays in the grid and Slot recovers its line and position. */
  lemma PointInGrid(d: Direction, n: nat, i: int, j: int)
    requires 0 <= i < n && 0 <= j < n
    ensures Point(d, n, i, j) in Keys(n)
    ensures Slot(d, n, Point(d, n, i, j).0, Point(d, n, i, j).1) == (i, j)
  {
    var p := Point(d, n, i, j);
    assert 0 <= p.0 < n && 0 <= p.1 < n;
  }

  /**
   * The lines of every direction visit each coordinate of the grid exactly
   * once; horizontal lines keep y fixed and vertical lines keep x fixed.
   */
  lemma DirectionCovers(d: Direction, n: nat)
    requires n >= 1
    ensures |DirectionLines(d, n)| == n && forall i :: 0 <= i < n ==> |DirectionLines(d, n)[i]| == n
    ensures forall x, y :: 0 <= x < n && 0 <= y < n ==>
      exists i, j :: 0 <= i < n && 0 <= j < n && DirectionLines(d, n)[i][j] == (x, y)
    ensures forall i, j, i', j' ::
      0 <= i < n && 0 <= j < n && 0 <= i' < n && 0 <= j' < n && DirectionLines(d, n)[i][j] == DirectionLines(d, n)[i'][j']
      ==> i == i' && j == j'
    ensures forall i, j :: 0 <= i < n && 0 <= j < n ==> DirectionLines(d, n)[i][j] in Keys(n)
    ensures forall i, j, j' :: 0 <= i < n && 0 <= j < n && 0 <= j' < n ==>
      if Arguments(d, n).2 then DirectionLines(d, n)[i][j].1 == DirectionLines(d, n)[i][j'].1
      else DirectionLines(d, n)[i][j].0 == DirectionLines(d, n)[i][j'].0
  {
    DirectionShape(d, n);
    var lines := DirectionLines(d, n);
    forall x, y | 0 <= x < n && 0 <= y < n
      ensures exists i, j :: 0 <= i < n && 0 <= j < n && lines[i][j] == (x, y)
    {
      SlotInvertsPoint(d, n, x, y);
      var s := Slot(d, n, x, y);
      assert lines[s.0][s.1] == (x, y);
    }
    forall i, j, i', j' | 0 <= i < n && 0 <= j < n && 0 <= i' < n && 0 <= j' < n && lines[i][j] == lines[i'][j']
      ensures i == i' && j == j'
    {
      PointInGrid(d, n, i, j);
      PointInGrid(d, n, i', j');
    }
    forall i, j | 0 <= i < n && 0 <= j < n ensures lines[i][j] in Keys(n) {
      PointInGrid(d, n, i, j);
    }
  }

  /** The insertion order of the constructor's keys: x outer, y inner. */
  function KeyOrder(n: nat): seq<Coord>
  {
    Flatten(Rows(seq(n, i => i), seq(n, i => i), false))
  }

  // ---------------------------------------------------------------------
  // Which keys the lines hold

  /** Both ends of the range are coordinates of an n-by-n grid. */
  predicate InGrid(range: (int, int), n: nat)
  {
    0 <= range.0 < n && 0 <= range.1 < n
  }

  /** A run never repeats a number and stays between its two ends. */
  lemma RunBetween(a: int, b: int, n: nat)
    requires InGrid((a, b), n)
    ensures forall i, j :: 0 <= i < j < |Run(a, b)| ==> Run(a, b)[i] != Run(a, b)[j]
    ensures forall i :: 0 <= i < |Run(a, b)| ==> 0 <= Run(a, b)[i] < n
  {
  }

  lemma DistinctConcat(a: seq<Coord>, b: seq<Coord>)
    requires Distinct(a) && Distinct(b) && forall p :: p in a ==> p !in b
    ensures Distinct(a + b)
  {
    forall i, j | 0 <= i < j < |a + b| ensures (a + b)[i] != (a + b)[j] {
      if i < |a| && j >= |a| {
        assert (a + b)[i] in a && (a + b)[j] in b;
      }
    }
  }

  lemma {:induction false} FlattenMember(rows: seq<seq<Coord>>, p: Coord)
    ensures p in Flatten(rows) <==> exists r :: 0 <= r < |rows| && p in rows[r]
  {
    if rows != [] {
      FlattenMember(rows[1..], p);
      assert Flatten(rows) == rows[0] + Flatten(rows[1..]);
      if p in Flatten(rows[1..]) {
        var r :| 0 <= r < |rows| - 1 && p in rows[1..][r];
        assert p in rows[r + 1];
      }
      if exists r :: 0 <= r < |rows| && p in rows[r] {
        var r :| 0 <= r < |rows| && p in rows[r];
        if r > 0 {
          assert p in rows[1..][r - 1];
        }
      }
    }
  }

  lemma FlattenMembers(rows: seq<seq<Coord>>)
    ensures forall p :: p in Flatten(rows) <==> exists r :: 0 <= r < |rows| && p in rows[r]
  {
    forall p {
      FlattenMember(rows, p);
    }
  }

  /** Distinct rows with no key in common flatten to a list of distinct keys. */
  lemma {:induction false} FlattenDistinct(rows: seq<seq<Coord>>)
    requires forall r :: 0 <= r < |rows| ==> Distinct(rows[r])
    requires forall r, r', p :: 0 <= r < r' < |rows| && p in rows[r] ==> p !in rows[r']
    ensures Distinct(Flatten(rows))
  {
    if rows != [] {
      FlattenDistinct(rows[1..]);
      FlattenMembers(rows[1..]);
      DistinctConcat(rows[0], Flatten(rows[1..]));
    }
  }

  /** The rows of two repetition-free runs inside the grid. */
  lemma RowsInGrid(xs: seq<int>, ys: seq<int>, horizontal: bool, n: nat)
    requires forall i, j :: 0 <= i < j < |xs| ==> xs[i] != xs[j]
    requires forall i, j :: 0 <= i < j < |ys| ==> ys[i] != ys[j]
    requires forall i :: 0 <= i < |xs| ==> 0 <= xs[i] < n
    requires forall i :: 0 <= i < |ys| ==> 0 <= ys[i] < n
    ensures var rows := Rows(xs, ys, horizontal);
      && (forall r :: 0 <= r < |rows| ==> Distinct(rows[r]))
      && (forall r, r', p :: 0 <= r < r' < |rows| && p in rows[r] ==> p !in rows[r'])
      && (forall r, p :: 0 <= r < |rows| && p in rows[r] ==> p in Keys(n))
  {
  }

  /** Every chunk is a stretch of the list: its keys come from it and, if the list repeats none, neither does the chunk. */
  lemma {:induction false} ChunksAreSlices(s: seq<Coord>, n: nat)
    requires n >= 1
    ensures forall i, p :: 0 <= i < |Chunks(s, n)| && p in Chunks(s, n)[i] ==> p in s
    ensures Distinct(s) ==> forall i :: 0 <= i < |Chunks(s, n)| ==> Distinct(Chunks(s, n)[i])
    decreases |s|
  {
    if |s| > 0 {
      var m := if n < |s| then n else |s|;
      ChunksAreSlices(s[m..], n);
      var cs := Chunks(s, n);
      assert cs == [s[..m]] + Chunks(s[m..], n);
      forall i, p | 0 <= i < |cs| && p in cs[i] ensures p in s {
        if i > 0 {
          assert p in Chunks(s[m..], n)[i - 1];
          assert p in s[m..];
          var k :| 0 <= k < |s| - m && s[m..][k] == p;
          assert s[m + k] == p;
        } else {
          var k :| 0 <= k < m && s[..m][k] == p;
          assert s[k] == p;
        }
      }
      if Distinct(s) {
        assert Distinct(s[m..]) by {
          forall i, j | 0 <= i < j < |s[m..]| ensures s[m..][i] != s[m..][j] {
            assert s[m..][i] == s[m + i] && s[m..][j] == s[m + j];
          }
        }
        forall i | 0 <= i < |cs| ensures Distinct(cs[i]) {
          if i > 0 {
            assert cs[i] == Chunks(s[m..], n)[i - 1];
          }
        }
      }
    }
  }

  /**
   * With both ranges inside the grid, every line getRangeArray builds is a
   * list of distinct grid keys.
   */
  lemma RangeLines(n: nat, xRange: (int, int), yRange: (int, int), horizontal: bool)
    requires n >= 1 && InGrid(xRange, n) && InGrid(yRange, n)
    ensures var lines := RangeArray(n, xRange, yRange, horizontal);
      forall i :: 0 <= i < |lines| ==> Distinct(lines[i]) && forall j :: 0 <= j < |lines[i]| ==> lines[i][j] in Keys(n)
  {
    var xs, ys := Run(xRange.0, xRange.1), Run(yRange.0, yRange.1);
    RunBetween(xRange.0, xRange.1, n);
    RunBetween(yRange.0, yRange.1, n);
    var rows := Rows(xs, ys, horizontal);
    RowsInGrid(xs, ys, horizontal, n);
    FlattenDistinct(rows);
    FlattenMembers(rows);
    ChunksAreSlices(Flatten(rows), n);
    var lines := RangeArray(n, xRange, yRange, horizontal);
    forall i, j | 0 <= i < |lines| && 0 <= j < |lines[i]| ensures lines[i][j] in Keys(n) {
      assert lines[i][j] in lines[i];
      assert lines[i][j] in Flatten(rows);
      var r :| 0 <= r < |rows| && lines[i][j] in rows[r];
    }
  }

  /** The constructor's keys: each grid coordinate exactly once. */
  lemma KeyOrderCovers(n: nat)
    ensures Distinct(KeyOrder(n))
    ensures forall p :: p in KeyOrder(n) <==> p in Keys(n)
  {
    var idx := seq(n, i => i);
    var rows := Rows(idx, idx, false);
    RowsInGrid(idx, idx, false, n);
    FlattenDistinct(rows);
    FlattenMembers(rows);
    forall p | p in Keys(n) ensures p in KeyOrder(n) {
      assert p == rows[p.0][p.1];
    }
  }
}
