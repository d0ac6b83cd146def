module Wrappers {
  /** A value that may be absent; stands for JavaScript's `null`/`undefined` results. */
  datatype Option<+T> = None | Some(value: T)
}

/**
 * One tile of the grid (bin/game-engine/cell/cell.js).
 *
 * JavaScript stores the empty sentinel '' or a number in `value`, and in
 * `doubleNumber` either '' or the number `value * 2`. Under JavaScript's
 * coercion `'' * 2` is 0, so `doubleNumber` really has three states: '',
 * 0 and a proper double. Both fields are modelled with `Value`.
 */
module Cells {

  /** '' (Blank) or a number. */
  datatype Value = Blank | Num(n: int)

  /** `v * 2` in JavaScript: '' coerces to 0. */
  function Twice(v: Value): (r: Value)
    ensures r.Num? && r.n % 2 == 0
    ensures v.Num? ==> r.n / 2 == v.n
    ensures v == Blank ==> r == Num(0)
  {
    match v
    case Blank => Num(0)
    case Num(k) => Num(2 * k)
  }

  /** The three fields of a Cell object. */
  datatype CellState = CellState(value: Value, doubleNumber: Value, modified: bool)

  /** The cached double agrees with the value; every operation below keeps it. */
  predicate Consistent(c: CellState)
  {
    c.value.Num? ==> c.doubleNumber == Num(2 * c.value.n)
  }

  /** `isEmpty()` */
  predicate Empty(c: CellState)
  {
    c.value == Blank
  }

  /** `canBeModified()` */
  predicate Mergeable(c: CellState)
  {
    !c.modified
  }

  /** The state `new Cell(v)` creates. */
  function Created(v: Value): (r: CellState)
    ensures Consistent(r) && !r.modified && r.value == v
    ensures v == Blank ==> Empty(r) && r.doubleNumber == Blank
  {
    CellState(v, if v != Blank then Twice(v) else Blank, false)
  }

  /** The state after `reset()`: only the flag is cleared. */
  function Cleared(c: CellState): (r: CellState)
    ensures !r.modified
    ensures r.value == c.value && r.doubleNumber == c.doubleNumber
    ensures Consistent(c) ==> Consistent(r)
  {
    c.(modified := false)
  }

  /** The state after `double()`: the value becomes the cached double. */
  function Doubled(c: CellState): (r: CellState)
    ensures r.modified
    ensures Consistent(c) && c.value.Num? ==> r.value == Num(2 * c.value.n) && Consistent(r)
  {
    var v := c.doubleNumber;
    CellState(v, Twice(v), true)
  }

  /** The state after `emptyCell()`. */
  function Emptied(c: CellState): (r: CellState)
    ensures Empty(r) && !r.modified && Consistent(r)
  {
    CellState(Blank, Blank, false)
  }

  /** The state after `setValue(v)`: the flag is kept. */
  function Assigned(c: CellState, v: Value): (r: CellState)
    ensures r.value == v && r.modified == c.modified
    ensures Consistent(r)
    ensures v == Blank ==> r.doubleNumber == Num(0)
  {
    c.(value := v, doubleNumber := Twice(v))
  }

  /** `double()` is the only operation that raises the merged flag. */
  lemma OnlyDoubleMarks(c: CellState, v: Value)
    requires !c.modified
    ensures !Cleared(c).modified && !Emptied(c).modified && !Assigned(c, v).modified
    ensures Doubled(c).modified
  {
  }

  /** A mutable cell, as in cell.js. */
  class Cell {
    var value: Value
    var doubleNumber: Value
    var modified: bool

    function State(): CellState
      reads this
    {
      CellState(value, doubleNumber, modified)
    }

    constructor (v: Value)
      ensures State() == Created(v)
      ensures v == Blank ==> value == Blank && !modified
    {
      value := v;
      doubleNumber := Blank;
      if v != Blank {
        doubleNumber := Twice(v);
      }
      modified := false;
    }

    method Reset()
      modifies this
      ensures State() == Cleared(old(State()))
    {
      modified := false;
    }

    method Double()
      modifies this
      ensures State() == Doubled(old(State()))
    {
      value := doubleNumber;
      doubleNumber := Twice(value);
      modified := true;
    }

    method CanBeModified() returns (b: bool)
      ensures b <==> !modified
    {
      b := !modified;
    }

    method IsEmpty() returns (b: bool)
      ensures b <==> value == Blank
    {
      b := value == Blank;
    }

    method EmptyCell()
      modifies this
      ensures State() == Emptied(old(State()))
    {
      value := Blank;
      doubleNumber := Blank;
      modified := false;
    }

    method SetValue(v: Value)
      modifies this
      ensures State() == Assigned(old(State()), v)
    {
      value := v;
      doubleNumber := Twice(value);
    }

    method GetValue() returns (v: Value)
      ensures v == value
    {
      v := value;
    }
  }
}
