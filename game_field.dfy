/**
 * The square grid of cells with its back buffer, and the 3x3 neighbour
 * window the generation step builds for every cell.
 */
module GameFields {
  import opened Wrappers
  import opened FieldValues
  import opened Cells
  import opened Arith
  import Life

  /** The board after a click at pixel (xCoord, yCoord): the cell whose row band holds yCoord and column band holds xCoord flips. */
  function ToggleAt(b: Life.Board, size: int, xCoord: int, yCoord: int): (r: Life.Board)
    ensures |r| == |b| && forall i :: 0 <= i < |b| ==> |r[i]| == |b[i]|
  {
    seq(|b|, i requires 0 <= i < |b| =>
      seq(|b[i]|, j requires 0 <= j < |b[i]| =>
        if Inside(i, j, size, yCoord, xCoord) then Toggled(b[i][j]) else b[i][j]))
  }

  /** Clicking the same pixel twice gives the board back. */
  lemma ToggleAtTwice(b: Life.Board, size: int, xCoord: int, yCoord: int)
    ensures ToggleAt(ToggleAt(b, size, xCoord, yCoord), size, xCoord, yCoord) == b
  {
    var r := ToggleAt(ToggleAt(b, size, xCoord, yCoord), size, xCoord, yCoord);
    forall i | 0 <= i < |b|
      ensures r[i] == b[i]
    {
      forall j | 0 <= j < |b[i]|
        ensures r[i][j] == b[i][j]
      {
        ToggledTwice(b[i][j]);
      }
    }
  }

  /** A click changes at most one cell, and on a grid line it changes none. */
  lemma ToggleAtChangesAtMostOne(b: Life.Board, size: int, xCoord: int, yCoord: int)
    ensures forall i1, j1, i2, j2 ::
      0 <= i1 < |b| && 0 <= j1 < |b[i1]| && 0 <= i2 < |b| && 0 <= j2 < |b[i2]| &&
      ToggleAt(b, size, xCoord, yCoord)[i1][j1] != b[i1][j1] &&
      ToggleAt(b, size, xCoord, yCoord)[i2][j2] != b[i2][j2]
      ==> i1 == i2 && j1 == j2
    ensures size > 0 && (xCoord % size == 0 || yCoord % size == 0) ==> ToggleAt(b, size, xCoord, yCoord) == b
  {
    var r := ToggleAt(b, size, xCoord, yCoord);
    forall i1, j1, i2, j2 |
      0 <= i1 < |b| && 0 <= j1 < |b[i1]| && 0 <= i2 < |b| && 0 <= j2 < |b[i2]| &&
      r[i1][j1] != b[i1][j1] && r[i2][j2] != b[i2][j2]
      ensures i1 == i2 && j1 == j2
    {
      InsideUnique(i1, j1, i2, j2, size, yCoord, xCoord);
    }
    if size > 0 && (xCoord % size == 0 || yCoord % size == 0) {
      forall i | 0 <= i < |b|
        ensures r[i] == b[i]
      {
        forall j | 0 <= j < |b[i]|
          ensures r[i][j] == b[i][j]
        {
          GridLineInsideNone(i, j, size, yCoord, xCoord);
        }
      }
    }
  }

  class GameField {
    const nrOfFields: int
    const fieldSize: int
    /** Pixel width and height of the drawn grid, nrOfFields * fieldSize. */
    const dimension: int
    const field: array2<Cell?>
    const fieldBackbuffer: array2<Cell?>
    /** The cell objects the grid currently shows. */
    ghost var Repr: set<Cell>

    /** Both arrays are n x n and distinct; the cell at [i, j] is the one at row i, column j. */
    ghost predicate Valid()
      reads this, field
    {
      nrOfFields >= 0 && fieldSize > 0 && dimension == nrOfFields * fieldSize &&
      field.Length0 == nrOfFields && field.Length1 == nrOfFields &&
      fieldBackbuffer.Length0 == nrOfFields && fieldBackbuffer.Length1 == nrOfFields &&
      field != fieldBackbuffer &&
      forall i, j :: 0 <= i < nrOfFields && 0 <= j < nrOfFields ==>
        field[i, j] != null && field[i, j] in Repr &&
        field[i, j].x == i && field[i, j].y == j && field[i, j].size == fieldSize
    }

    /** The grid's contents as a board value. */
    ghost function Values(): (b: Life.Board)
      requires Valid()
      reads this, field, Repr
      ensures Life.IsSquare(b, nrOfFields)
      ensures forall i, j :: 0 <= i < nrOfFields && 0 <= j < nrOfFields ==> b[i][j] == field[i, j].value
    {
      seq(nrOfFields, i requires 0 <= i < nrOfFields && Valid() reads this, field, Repr =>
        seq(nrOfFields, j requires 0 <= j < nrOfFields && Valid() reads this, field, Repr => field[i, j].value))
    }

    /** No cell of the grid is highlighted. */
    ghost predicate NoneHighlighted()
      requires Valid()
      reads this, field, Repr
    {
      forall i, j :: 0 <= i < nrOfFields && 0 <= j < nrOfFields ==> !field[i, j].highlighted
    }

    constructor (nrOfFields: int, fieldSize: int)
      requires nrOfFields >= 0 && fieldSize > 0
      ensures Valid() && fresh(field) && fresh(fieldBackbuffer)
      ensures this.nrOfFields == nrOfFields && this.fieldSize == fieldSize
      ensures fresh(Repr)
      ensures Values() == Life.Dead(nrOfFields) && NoneHighlighted()
    {
      this.nrOfFields := nrOfFields;
      this.fieldSize := fieldSize;
      var val := nrOfFields * fieldSize;
      dimension := val;
      // the array side is the pixel dimension divided by the cell size, which is nrOfFields again
      var side := val / fieldSize;
      DivMulCancel(nrOfFields, fieldSize);
      field := new Cell?[side, side];
      fieldBackbuffer := new Cell?[side, side];
      new;
      InitFieldsWith(INACTIVE);
    }

    /** Fills both arrays with fresh, unhighlighted cells holding `initialValue`. */
    method InitFieldsWith(initialValue: FieldValue)
      requires nrOfFields >= 0 && fieldSize > 0 && dimension == nrOfFields * fieldSize
      requires field.Length0 == nrOfFields && field.Length1 == nrOfFields
      requires fieldBackbuffer.Length0 == nrOfFields && fieldBackbuffer.Length1 == nrOfFields
      requires field != fieldBackbuffer
      modifies this, field, fieldBackbuffer
      ensures Valid() && fresh(Repr)
      ensures NoneHighlighted()
      ensures Values() == seq(nrOfFields, i => seq(nrOfFields, j => initialValue))
    {
      Repr := {};
      var i := 0;
      while i < field.Length0
        invariant 0 <= i <= nrOfFields && fresh(Repr)
        invariant forall r, c :: 0 <= r < i && 0 <= c < nrOfFields ==>
          field[r, c] != null && field[r, c] in Repr && field[r, c].x == r && field[r, c].y == c &&
          field[r, c].size == fieldSize && field[r, c].value == initialValue && !field[r, c].highlighted
      {
        var j := 0;
        while j < field.Length1
          invariant 0 <= j <= nrOfFields && fresh(Repr)
          invariant forall r, c :: ((0 <= r < i && 0 <= c < nrOfFields) || (r == i && 0 <= c < j)) ==>
            field[r, c] != null && field[r, c] in Repr && field[r, c].x == r && field[r, c].y == c &&
            field[r, c].size == fieldSize && field[r, c].value == initialValue && !field[r, c].highlighted
        {
          var cell := new Cell(i, j, fieldSize, initialValue);
          field[i, j] := cell;
          Repr := Repr + {cell};
          fieldBackbuffer[i, j] := new Cell(i, j, fieldSize, initialValue);
          j := j + 1;
        }
        i := i + 1;
      }
      ghost var b := Values();
      assert forall r | 0 <= r < nrOfFields :: b[r] == seq(nrOfFields, j => initialValue);
    }

    /**
     * The bound check as written: against the pixel dimension, not the number
     * of cells. It admits every index of the grid.
     */
    predicate IsValidCoordinate(x: int, y: int)
      requires Valid()
      reads this, field
      ensures 0 <= x < nrOfFields && 0 <= y < nrOfFields ==> IsValidCoordinate(x, y)
    {
      MulAtLeast(nrOfFields, fieldSize);
      x >= 0 && x < dimension && y >= 0 && y < dimension
    }

    /** The cell at row x, column y; IndexOutOfBounds outside [0, n) on either axis. */
    method Get(x: int, y: int) returns (r: Result<Cell, IndexError>)
      requires Valid()
      ensures r.Err? <==> !(0 <= x < nrOfFields && 0 <= y < nrOfFields)
      ensures r.Ok? ==> r.value == field[x, y] && r.value.value == Values()[x][y]
    {
      if !IsValidCoordinate(x, y) {
        return Err(IndexOutOfBounds);
      }
      // indices in [n, n * fieldSize) pass the check above and fail the array access
      if x >= field.Length0 || y >= field.Length1 {
        return Err(IndexOutOfBounds);
      }
      MulAtLeast(nrOfFields, fieldSize);
      return Ok(field[x, y]);
    }

    /** Sets the value of one cell; IndexOutOfBounds outside [0, n). */
    method Set(x: int, y: int, value: FieldValue) returns (r: Result<bool, IndexError>)
      requires Valid()
      modifies Repr
      ensures Valid()
      ensures r == if 0 <= x < nrOfFields && 0 <= y < nrOfFields then Ok(true) else Err(IndexOutOfBounds)
      ensures r.Ok? ==> Values() == old(Values())[x := old(Values())[x][y := value]]
      ensures r.Err? ==> Values() == old(Values())
      ensures forall i, j :: 0 <= i < nrOfFields && 0 <= j < nrOfFields ==>
        field[i, j].highlighted == old(field[i, j].highlighted)
    {
      MulAtLeast(nrOfFields, fieldSize);
      if !IsValidCoordinate(x, y) {
        return Err(IndexOutOfBounds);
      }
      if x >= field.Length0 || y >= field.Length1 {
        return Err(IndexOutOfBounds);
      }
      ghost var before := Values();
      ghost var expected := before[x := before[x][y := value]];
      var cell := field[x, y];
      cell.SetValue(value);
      assert forall r, c | 0 <= r < nrOfFields && 0 <= c < nrOfFields && field[r, c] != cell ::
        field[r, c].value == old(field[r, c].value);
      ghost var after := Values();
      assert forall r | 0 <= r < nrOfFields :: after[r] == expected[r];
      return Ok(true);
    }

    /** Highlights the cell containing pixel (xCoord, yCoord), row from the vertical pixel, and unhighlights every other. */
    method HighlightField(xCoord: int, yCoord: int)
      requires Valid()
      modifies Repr
      ensures Valid() && Values() == old(Values())
      ensures forall i, j :: 0 <= i < nrOfFields && 0 <= j < nrOfFields ==>
        field[i, j].highlighted == Inside(i, j, fieldSize, yCoord, xCoord)
    {
      var i := 0;
      while i < field.Length0
        invariant 0 <= i <= nrOfFields
        invariant forall r, c :: 0 <= r < nrOfFields && 0 <= c < nrOfFields ==> field[r, c].value == old(field[r, c].value)
        invariant forall r, c :: 0 <= r < i && 0 <= c < nrOfFields ==>
          field[r, c].highlighted == Inside(r, c, fieldSize, yCoord, xCoord)
      {
        var j := 0;
        while j < field.Length1
          invariant 0 <= j <= nrOfFields
          invariant forall r, c :: 0 <= r < nrOfFields && 0 <= c < nrOfFields ==> field[r, c].value == old(field[r, c].value)
          invariant forall r, c :: ((0 <= r < i && 0 <= c < nrOfFields) || (r == i && 0 <= c < j)) ==>
            field[r, c].highlighted == Inside(r, c, fieldSize, yCoord, xCoord)
        {
          field[i, j].SetHighlighted(field[i, j].IsInside(yCoord, xCoord));
          j := j + 1;
        }
        i := i + 1;
      }
      ghost var after := Values();
      assert forall r | 0 <= r < nrOfFields :: after[r] == old(Values())[r];
    }

    /** Flips the cell containing pixel (xCoord, yCoord), if any, and stops at it. */
    method ToggleField(xCoord: int, yCoord: int)
      requires Valid()
      modifies Repr
      ensures Valid()
      ensures Values() == ToggleAt(old(Values()), fieldSize, xCoord, yCoord)
      ensures forall i, j :: 0 <= i < nrOfFields && 0 <= j < nrOfFields ==>
        field[i, j].highlighted == old(field[i, j].highlighted)
    {
      ghost var before := Values();
      var i := 0;
      while i < field.Length0
        invariant 0 <= i <= nrOfFields
        invariant Values() == before
        invariant forall r, c :: 0 <= r < i && 0 <= c < nrOfFields ==> !Inside(r, c, fieldSize, yCoord, xCoord)
        invariant forall r, c :: 0 <= r < nrOfFields && 0 <= c < nrOfFields ==>
          field[r, c].highlighted == old(field[r, c].highlighted)
      {
        var j := 0;
        while j < field.Length1
          invariant 0 <= j <= nrOfFields
          invariant Values() == before
          invariant forall r, c :: ((0 <= r < i && 0 <= c < nrOfFields) || (r == i && 0 <= c < j)) ==>
            !Inside(r, c, fieldSize, yCoord, xCoord)
          invariant forall r, c :: 0 <= r < nrOfFields && 0 <= c < nrOfFields ==>
            field[r, c].highlighted == old(field[r, c].highlighted)
        {
          if field[i, j].IsInside(yCoord, xCoord) {
            field[i, j].ToggleValue();
            ghost var after := Values();
            forall r, c | 0 <= r < nrOfFields && 0 <= c < nrOfFields && Inside(r, c, fieldSize, yCoord, xCoord)
              ensures r == i && c == j
            {
              InsideUnique(r, c, i, j, fieldSize, yCoord, xCoord);
            }
            assert forall r | 0 <= r < nrOfFields :: after[r] == ToggleAt(before, fieldSize, xCoord, yCoord)[r];
            return;
          }
          j := j + 1;
        }
        i := i + 1;
      }
      assert forall r | 0 <= r < nrOfFields :: before[r] == ToggleAt(before, fieldSize, xCoord, yCoord)[r];
    }

    /**
     * Copies `values` into the grid. Refused (false, nothing changed) when the row
     * count or the first row's length differs from the grid; IndexOutOfBounds when
     * both are empty or a later row is too short.
     */
    method SetValues(values: seq<seq<FieldValue>>) returns (r: Result<bool, IndexError>)
      requires Valid()
      modifies Repr
      ensures Valid()
      ensures r == Ok(false) <==> |values| != nrOfFields || (nrOfFields > 0 && |values[0]| != nrOfFields)
      ensures r.Err? <==> (|values| == nrOfFields &&
        (nrOfFields == 0 || (|values[0]| == nrOfFields && exists i :: 0 <= i < nrOfFields && |values[i]| < nrOfFields)))
      ensures r == Ok(false) ==> Values() == old(Values())
      ensures r == Ok(true) ==> forall i, j :: 0 <= i < nrOfFields && 0 <= j < nrOfFields ==> Values()[i][j] == values[i][j]
      ensures forall i, j :: 0 <= i < nrOfFields && 0 <= j < nrOfFields ==>
        field[i, j].highlighted == old(field[i, j].highlighted)
    {
      if |values| != field.Length0 {
        return Ok(false);
      }
      if |values| == 0 {
        // values[0] of an empty array
        return Err(IndexOutOfBounds);
      }
      if |values[0]| != field.Length1 {
        return Ok(false);
      }
      var i := 0;
      while i < field.Length0
        invariant 0 <= i <= nrOfFields
        invariant forall r :: 0 <= r < i ==> |values[r]| >= nrOfFields
        invariant forall r, c :: 0 <= r < i && 0 <= c < nrOfFields ==> field[r, c].value == values[r][c]
        invariant forall r, c :: 0 <= r < nrOfFields && 0 <= c < nrOfFields ==>
          field[r, c].highlighted == old(field[r, c].highlighted)
      {
        var j := 0;
        while j < field.Length1
          invariant 0 <= j <= nrOfFields
          invariant j > 0 ==> |values[i]| >= j
          invariant forall r, c :: ((0 <= r < i && 0 <= c < nrOfFields) || (r == i && 0 <= c < j)) ==>
            field[r, c].value == values[r][c]
          invariant forall r, c :: 0 <= r < nrOfFields && 0 <= c < nrOfFields ==>
            field[r, c].highlighted == old(field[r, c].highlighted)
        {
          if j >= |values[i]| {
            return Err(IndexOutOfBounds);
          }
          field[i, j].SetValue(values[i][j]);
          j := j + 1;
        }
        i := i + 1;
      }
      return Ok(true);
    }

    /** Gives cell (i, j) the value of the (i*n + j)-th supplied random bit: true is ACTIVE. */
    method Seed(bits: seq<bool>)
      requires Valid() && |bits| >= nrOfFields * nrOfFields
      modifies Repr
      ensures Valid()
      ensures Values() == Life.Seeded(bits, nrOfFields)
      ensures forall i, j :: 0 <= i < nrOfFields && 0 <= j < nrOfFields ==>
        field[i, j].highlighted == old(field[i, j].highlighted)
    {
      var n := nrOfFields;
      ghost var seeded := Life.Seeded(bits, n);
      var k := 0;
      var i := 0;
      while i < field.Length0
        invariant 0 <= i <= n && k == i * n
        invariant forall r, c :: 0 <= r < i && 0 <= c < n ==> field[r, c].value == seeded[r][c]
        invariant forall r, c :: 0 <= r < n && 0 <= c < n ==>
          field[r, c].highlighted == old(field[r, c].highlighted)
      {
        var j := 0;
        while j < field.Length1
          invariant 0 <= j <= n && k == i * n + j
          invariant forall r, c :: ((0 <= r < i && 0 <= c < n) || (r == i && 0 <= c < j)) ==>
            field[r, c].value == seeded[r][c]
          invariant forall r, c :: 0 <= r < n && 0 <= c < n ==>
            field[r, c].highlighted == old(field[r, c].highlighted)
        {
          Life.RowMajorBound(i, j, n);
          field[i, j].SetValue(if bits[k] then ACTIVE else INACTIVE);
          k := k + 1;
          j := j + 1;
        }
        assert k == (i + 1) * n;
        i := i + 1;
      }
      ghost var b := Values();
      assert forall r | 0 <= r < n :: b[r] == seeded[r];
    }

    /** Number of live cells. */
    method NrOfAliveCells() returns (count: int)
      requires Valid()
      ensures count == Life.AliveCount(Values())
    {
      ghost var b := Values();
      count := 0;
      var i := 0;
      while i < field.Length0
        invariant 0 <= i <= nrOfFields
        invariant count == Life.AliveCount(b[..i])
      {
        var rowCount := RowAliveCells(i);
        count := count + rowCount;
        assert b[..i + 1][..i] == b[..i];
        i := i + 1;
      }
      assert b[..nrOfFields] == b;
    }

    /** Number of live cells in row i. */
    method RowAliveCells(i: int) returns (count: int)
      requires Valid() && 0 <= i < nrOfFields
      ensures count == Life.RowAlive(Values()[i])
    {
      ghost var row := Values()[i];
      count := 0;
      var j := 0;
      while j < field.Length1
        invariant 0 <= j <= nrOfFields
        invariant count == Life.RowAlive(row[..j])
      {
        if field[i, j].value == ACTIVE {
          count := count + 1;
        }
        assert row[..j + 1][..j] == row[..j];
        j := j + 1;
      }
      assert row[..nrOfFields] == row;
    }

    /**
     * One generation. Every new cell is a fresh object written to the back buffer
     * from counts taken on the untouched grid; only then are the new cells copied
     * into the grid.
     */
    method GenerateNewGeneration()
      requires Valid()
      modifies this, field, fieldBackbuffer
      ensures Valid() && fresh(Repr)
      ensures Values() == Life.Step(old(Values()))
      ensures NoneHighlighted()
    {
      ghost var next := Life.Step(Values());
      ghost var newRepr := FillBackbuffer(next);
      var n := nrOfFields;
      var i := 0;
      while i < field.Length0
        modifies field
        invariant 0 <= i <= n && field != fieldBackbuffer
        invariant forall r, c :: 0 <= r < i && 0 <= c < n ==> field[r, c] == fieldBackbuffer[r, c]
        invariant forall r, c :: 0 <= r < n && 0 <= c < n ==> fieldBackbuffer[r, c] in newRepr
        invariant forall r, c {:trigger NextAt(fieldBackbuffer[r, c], r, c, next[r][c])} ::
          0 <= r < n && 0 <= c < n ==> NextAt(fieldBackbuffer[r, c], r, c, next[r][c])
      {
        var j := 0;
        while j < field.Length1
          modifies field
          invariant 0 <= j <= n && field != fieldBackbuffer
          invariant forall r, c :: ((0 <= r < i && 0 <= c < n) || (r == i && 0 <= c < j)) ==>
            field[r, c] == fieldBackbuffer[r, c]
        {
          field[i, j] := fieldBackbuffer[i, j];
          j := j + 1;
        }
        i := i + 1;
      }
      Repr := newRepr;
      forall r, c | 0 <= r < n && 0 <= c < n
        ensures field[r, c] != null && field[r, c] in Repr && field[r, c].x == r && field[r, c].y == c
        ensures field[r, c].size == fieldSize && field[r, c].value == next[r][c] && !field[r, c].highlighted
      {
        assert NextAt(fieldBackbuffer[r, c], r, c, next[r][c]);
      }
      ghost var after := Values();
      assert forall r | 0 <= r < n :: after[r] == next[r];
    }

    /** Writes a fresh next-generation cell for every position into the back buffer, leaving the grid untouched. */
    method FillBackbuffer(ghost next: Life.Board) returns (ghost newRepr: set<Cell>)
      requires Valid() && next == Life.Step(Values())
      modifies fieldBackbuffer
      ensures fresh(newRepr)
      ensures forall r, c :: 0 <= r < nrOfFields && 0 <= c < nrOfFields ==> fieldBackbuffer[r, c] in newRepr
      ensures forall r, c {:trigger NextAt(fieldBackbuffer[r, c], r, c, next[r][c])} ::
        0 <= r < nrOfFields && 0 <= c < nrOfFields ==> NextAt(fieldBackbuffer[r, c], r, c, next[r][c])
    {
      var n := nrOfFields;
      newRepr := {};
      var i := 0;
      while i < field.Length0
        modifies fieldBackbuffer
        invariant 0 <= i <= n && fresh(newRepr)
        invariant Valid() && next == Life.Step(Values())
        invariant forall r, c :: 0 <= r < i && 0 <= c < n ==> fieldBackbuffer[r, c] in newRepr
        invariant forall r, c {:trigger NextAt(fieldBackbuffer[r, c], r, c, next[r][c])} ::
          0 <= r < i && 0 <= c < n ==> NextAt(fieldBackbuffer[r, c], r, c, next[r][c])
      {
        ghost var rowRepr := FillRow(i, next);
        newRepr := newRepr + rowRepr;
        i := i + 1;
      }
    }

    /** The inner loop of the generation step: row i of the back buffer gets its fresh next-generation cells. */
    method FillRow(i: int, ghost next: Life.Board) returns (ghost rowRepr: set<Cell>)
      requires Valid() && next == Life.Step(Values()) && 0 <= i < nrOfFields
      modifies fieldBackbuffer
      ensures fresh(rowRepr)
      ensures forall r, c :: 0 <= r < nrOfFields && r != i && 0 <= c < nrOfFields ==>
        fieldBackbuffer[r, c] == old(fieldBackbuffer[r, c])
      ensures forall c :: 0 <= c < nrOfFields ==> fieldBackbuffer[i, c] in rowRepr
      ensures forall c :: 0 <= c < nrOfFields ==> NextAt(fieldBackbuffer[i, c], i, c, next[i][c])
    {
      var n := nrOfFields;
      rowRepr := {};
      var j := 0;
      while j < field.Length1
        modifies fieldBackbuffer
        invariant 0 <= j <= n && fresh(rowRepr)
        invariant forall r, c :: 0 <= r < n && r != i && 0 <= c < n ==>
          fieldBackbuffer[r, c] == old(fieldBackbuffer[r, c])
        invariant forall c :: 0 <= c < j ==> fieldBackbuffer[i, c] in rowRepr && NextAt(fieldBackbuffer[i, c], i, c, next[i][c])
      {
        var newCell := NextCell(i, j);
        rowRepr := rowRepr + {newCell};
        fieldBackbuffer[i, j] := newCell;
        j := j + 1;
      }
    }

    /** `cell` is an unhighlighted next-generation cell for [r, c] holding `v`. */
    ghost predicate NextAt(cell: Cell?, r: int, c: int, v: FieldValue)
      reads cell
    {
      cell != null && cell.x == r && cell.y == c && cell.size == fieldSize &&
      cell.value == v && !cell.highlighted
    }

    /** A fresh copy of cell [i, j] with the rule applied to its neighbour count, read through its window. */
    method NextCell(i: int, j: int) returns (newCell: Cell)
      requires Valid() && 0 <= i < nrOfFields && 0 <= j < nrOfFields
      ensures fresh(newCell) && !newCell.highlighted
      ensures newCell.x == i && newCell.y == j && newCell.size == fieldSize
      ensures newCell.value == Life.Step(old(Values()))[i][j]
    {
      var currF := field[i, j];
      newCell := new Cell(currF.x, currF.y, currF.size, currF.value);
      var nrOfNeighbors := NeighbourCount(currF);
      ApplyRule(newCell, nrOfNeighbors);
    }

    /** The live neighbours of a grid cell, counted through a fresh window around it. */
    method NeighbourCount(currF: Cell) returns (nrOfNeighbors: int)
      requires Valid()
      ensures nrOfNeighbors == Life.Neighbours(Values(), currF.x, currF.y)
    {
      var adjacentCells := new AdjacentCells(this, currF);
      nrOfNeighbors := adjacentCells.NumberOfActiveNeighbors();
    }
  }

  /** Kills a live cell with fewer than two or more than three live neighbours; a dead one with exactly three comes alive. */
  method ApplyRule(newCell: Cell, nrOfNeighbors: int)
    modifies newCell`value
    ensures newCell.value == Life.Rule(old(newCell.value), nrOfNeighbors)
  {
    if newCell.value == ACTIVE {
      if nrOfNeighbors < 2 || nrOfNeighbors > 3 {
        newCell.SetValue(INACTIVE);
      }
    } else {
      if nrOfNeighbors == 3 {
        newCell.SetValue(ACTIVE);
      }
    }
  }

  /** A pixel coordinate outside [1, n * size) lies in none of the n bands of width size. */
  lemma OutsideBands(i: int, n: int, size: int, c: int)
    requires 0 <= i < n && size > 0 && (c <= 0 || c >= n * size)
    ensures !(c > i * size && c < i * size + size)
  {
    MulMonotone(0, i, size);
    MulMonotone(i + 1, n, size);
  }

  /** A click outside the drawn grid changes no cell. */
  lemma ToggleOutside(b: Life.Board, n: int, size: int, xCoord: int, yCoord: int)
    requires Life.IsSquare(b, n) && size > 0
    requires xCoord <= 0 || yCoord <= 0 || xCoord >= n * size || yCoord >= n * size
    ensures ToggleAt(b, size, xCoord, yCoord) == b
  {
    var r := ToggleAt(b, size, xCoord, yCoord);
    forall i | 0 <= i < n
      ensures r[i] == b[i]
    {
      forall j | 0 <= j < n
        ensures r[i][j] == b[i][j]
      {
        if yCoord <= 0 || yCoord >= n * size {
          OutsideBands(i, n, size, yCoord);
        } else {
          OutsideBands(j, n, size, xCoord);
        }
      }
    }
  }

  /**
   * The bound check compares against the pixel dimension: with cells wider than
   * one pixel the index n itself passes it, and only the array access rejects it.
   */
  lemma ValidCoordinateAdmitsIndexN(g: GameField)
    requires g.Valid() && g.nrOfFields > 0 && g.fieldSize > 1
    ensures g.IsValidCoordinate(g.nrOfFields, 0) && g.nrOfFields >= g.field.Length0
  {
    assert g.nrOfFields * 1 < g.nrOfFields * g.fieldSize;
  }

  /** The 3x3 window around one cell; positions off the grid hold fresh dead cells. */
  class AdjacentCells {
    const gameField: GameField
    const field: Cell
    const adjacentCells: array2<Cell?>

    ghost function WindowCells(): set<Cell?>
      reads adjacentCells
    {
      set i, j | 0 <= i < adjacentCells.Length0 && 0 <= j < adjacentCells.Length1 :: adjacentCells[i, j]
    }

    /** Window entry (i, j) holds the grid's value at offset (i-1, j-1), dead off the grid. */
    ghost predicate Valid()
      reads gameField, gameField.field, gameField.Repr, adjacentCells, WindowCells()
    {
      gameField.Valid() && adjacentCells != gameField.field &&
      adjacentCells.Length0 == 3 && adjacentCells.Length1 == 3 &&
      forall i, j :: 0 <= i < 3 && 0 <= j < 3 ==>
        adjacentCells[i, j] != null &&
        adjacentCells[i, j].value == Life.Window(gameField.Values(), field.x, field.y)[i][j]
    }

    constructor (gameField: GameField, field: Cell)
      requires gameField.Valid()
      ensures Valid() && fresh(adjacentCells)
      ensures this.gameField == gameField && this.field == field
    {
      adjacentCells := new Cell?[3, 3];
      this.gameField := gameField;
      this.field := field;
      new;
      Init();
    }

    /** Reads the nine positions through the grid's bounds-checked Get; a failed Get yields a dead stand-in. */
    method Init()
      requires gameField.Valid() && adjacentCells != gameField.field
      requires adjacentCells.Length0 == 3 && adjacentCells.Length1 == 3
      modifies adjacentCells
      ensures Valid()
    {
      var x := field.x;
      var y := field.y;
      ghost var w := Life.Window(gameField.Values(), x, y);
      var i := 0;
      while i < 3
        invariant 0 <= i <= 3
        invariant gameField.Valid() && gameField.Values() == old(gameField.Values())
        invariant w == Life.Window(gameField.Values(), x, y)
        invariant forall r, c :: 0 <= r < i && 0 <= c < 3 ==>
          adjacentCells[r, c] != null && adjacentCells[r, c].value == w[r][c]
      {
        var j := 0;
        while j < 3
          invariant 0 <= j <= 3
          invariant gameField.Valid() && gameField.Values() == old(gameField.Values())
          invariant w == Life.Window(gameField.Values(), x, y)
          invariant forall r, c :: ((0 <= r < i && 0 <= c < 3) || (r == i && 0 <= c < j)) ==>
            adjacentCells[r, c] != null && adjacentCells[r, c].value == w[r][c]
        {
          var newX := x + (if i == 0 then -1 else if i == 1 then 0 else 1);
          var newY := y + (if j == 0 then -1 else if j == 1 then 0 else 1);
          var c := Fetch(newX, newY);
          adjacentCells[i, j] := c;
          j := j + 1;
        }
        i := i + 1;
      }
    }

    /** The grid's cell at (newX, newY), or a fresh dead cell where the grid's Get fails. */
    method Fetch(newX: int, newY: int) returns (c: Cell)
      requires gameField.Valid()
      ensures c.value == Life.At(gameField.Values(), newX, newY)
    {
      var got := gameField.Get(newX, newY);
      match got {
        case Ok(cell) =>
          c := cell;
        case Err(_) =>
          c := new Cell(newX, newY, field.size, INACTIVE);
      }
    }

    /** Live cells in the window other than the centre: the cell's neighbour count. */
    method NumberOfActiveNeighbors() returns (nr: int)
      requires Valid()
      ensures nr == Life.Neighbours(gameField.Values(), field.x, field.y)
      ensures 0 <= nr <= 8
    {
      ghost var w := Life.Window(gameField.Values(), field.x, field.y);
      nr := 0;
      var i := 0;
      while i < 3
        invariant 0 <= i <= 3
        invariant nr == Life.WindowCount(w, i, 0)
      {
        var j := 0;
        while j < 3
          invariant 0 <= j <= 3
          invariant nr == Life.WindowCount(w, i, j)
        {
          if !(i == 1 && j == 1) && adjacentCells[i, j].value == ACTIVE {
            nr := nr + 1;
          }
          j := j + 1;
        }
        i := i + 1;
      }
      Life.WindowCountAll(gameField.Values(), field.x, field.y);
    }
  }
}
