/**
 * One cell of the board: a fixed position (row x, column y) and pixel size,
 * a mutable alive/dead value and a mutable highlight flag.
 */
module Cells {
  import opened FieldValues
  import opened Arith

  /**
   * The pixel hit test of the cell at row x, column y with side `size`:
   * both coordinates lie strictly inside the cell's band, so a pixel on a
   * dividing line belongs to no cell.
   */
  predicate Inside(x: int, y: int, size: int, xCoord: int, yCoord: int)
    ensures Inside(x, y, size, xCoord, yCoord) ==> size >= 2
  {
    xCoord > x * size && xCoord < x * size + size && yCoord > y * size && yCoord < y * size + size
  }

  class Cell {
    const x: int
    const y: int
    const size: int
    var value: FieldValue
    var highlighted: bool

    constructor (x: int, y: int, size: int, value: FieldValue)
      ensures this.x == x && this.y == y && this.size == size
      ensures this.value == value && !highlighted
    {
      this.x := x;
      this.y := y;
      this.size := size;
      this.value := value;
      highlighted := false;
    }

    /** The pixel (xCoord, yCoord) is off the grid lines and its quotients by the size are this cell's row and column. */
    predicate IsInside(xCoord: int, yCoord: int)
      ensures IsInside(xCoord, yCoord) <==>
        size > 0 && xCoord % size != 0 && yCoord % size != 0 && xCoord / size == x && yCoord / size == y
    {
      if size > 0 then
        InsideIff(x, y, size, xCoord, yCoord);
        Inside(x, y, size, xCoord, yCoord)
      else
        Inside(x, y, size, xCoord, yCoord)
    }

    method SetValue(value: FieldValue)
      modifies this`value
      ensures this.value == value
    {
      this.value := value;
    }

    method ToggleValue()
      modifies this`value
      ensures value == Toggled(old(value))
    {
      SetValue(if value == ACTIVE then INACTIVE else ACTIVE);
    }

    method SetHighlighted(highlighted: bool)
      modifies this`highlighted
      ensures this.highlighted == highlighted
    {
      this.highlighted := highlighted;
    }
  }


  /**
   * For a positive size the hit test agrees with integer division:
   * the pixel lies in band x exactly when it is not a multiple of the size
   * and its quotient by the size is x.
   */
  lemma InsideBand(x: int, size: int, c: int)
    requires size > 0
    ensures (c > x * size && c < x * size + size) <==> (c % size != 0 && c / size == x)
  {
    var q, r := c / size, c % size;
    assert c == q * size + r && 0 <= r < size;
    if c > x * size && c < x * size + size {
      if q > x {
        MulMonotone(x + 1, q, size);
        assert false;
      } else if q < x {
        MulMonotone(q + 1, x, size);
        assert false;
      }
      assert r != 0;
    }
  }

  lemma InsideIff(x: int, y: int, size: int, xCoord: int, yCoord: int)
    requires size > 0
    ensures Inside(x, y, size, xCoord, yCoord) <==>
      (xCoord % size != 0 && yCoord % size != 0 && xCoord / size == x && yCoord / size == y)
  {
    InsideBand(x, size, xCoord);
    InsideBand(y, size, yCoord);
  }

  /** Two cells of the same size at different positions never both contain a pixel. */
  lemma InsideUnique(x1: int, y1: int, x2: int, y2: int, size: int, xCoord: int, yCoord: int)
    requires Inside(x1, y1, size, xCoord, yCoord) && Inside(x2, y2, size, xCoord, yCoord)
    ensures x1 == x2 && y1 == y2
  {
    assert size > 0;
    InsideIff(x1, y1, size, xCoord, yCoord);
    InsideIff(x2, y2, size, xCoord, yCoord);
  }

  /** A pixel on a grid line (a multiple of the size on either axis) is inside no cell. */
  lemma GridLineInsideNone(x: int, y: int, size: int, xCoord: int, yCoord: int)
    requires size > 0 && (xCoord % size == 0 || yCoord % size == 0)
    ensures !Inside(x, y, size, xCoord, yCoord)
  {
    InsideIff(x, y, size, xCoord, yCoord);
  }
}
