/**
 * The board as a value and the rule that maps one generation to the next.
 * The grid class is proved against these definitions.
 */
module Life {
  import opened FieldValues
  import opened Arith

  /** Row-major board of cell values; row x, column y is b[x][y]. */
  type Board = seq<seq<FieldValue>>

  ghost predicate IsSquare<T>(b: seq<seq<T>>, n: int)
  {
    |b| == n && forall i :: 0 <= i < n ==> |b[i]| == n
  }

  predicate InGrid(b: Board, x: int, y: int)
  {
    0 <= x < |b| && 0 <= y < |b[x]|
  }

  /** The value at (x, y); a position outside the board reads as dead. */
  function At(b: Board, x: int, y: int): FieldValue
  {
    if InGrid(b, x, y) then b[x][y] else INACTIVE
  }

  function Live(b: Board, x: int, y: int): nat
  {
    if At(b, x, y) == ACTIVE then 1 else 0
  }

  /** The eight offsets {-1,0,1}^2 without (0,0), in row-major order. */
  const Offsets: seq<(int, int)> := [(-1, -1), (-1, 0), (-1, 1), (0, -1), (0, 1), (1, -1), (1, 0), (1, 1)]

  /** Live cells among the positions (x, y) + d for the offsets d in `offs`. */
  function LiveAmong(b: Board, x: int, y: int, offs: seq<(int, int)>): (r: nat)
    ensures r <= |offs|
  {
    if offs == [] then 0 else Live(b, x + offs[0].0, y + offs[0].1) + LiveAmong(b, x, y, offs[1..])
  }

  /**
   * Live cells among the eight neighbouring positions; no wrap-around,
   * no reflection: the board's outside is dead.
   */
  function Neighbours(b: Board, x: int, y: int): (r: nat)
    ensures r <= 8
  {
    LiveAmong(b, x, y, Offsets)
  }

  /** The neighbour count written out offset by offset. */
  lemma NeighboursExpanded(b: Board, x: int, y: int)
    ensures Neighbours(b, x, y) ==
      Live(b, x - 1, y - 1) + Live(b, x - 1, y) + Live(b, x - 1, y + 1) +
      Live(b, x, y - 1) + Live(b, x, y + 1) +
      Live(b, x + 1, y - 1) + Live(b, x + 1, y) + Live(b, x + 1, y + 1)
  {
    var o := Offsets;
    assert LiveAmong(b, x, y, o[8..]) == 0;
    assert LiveAmong(b, x, y, o[7..]) == Live(b, x + 1, y + 1);
    assert LiveAmong(b, x, y, o[6..]) == Live(b, x + 1, y) + LiveAmong(b, x, y, o[7..]);
    assert LiveAmong(b, x, y, o[5..]) == Live(b, x + 1, y - 1) + LiveAmong(b, x, y, o[6..]);
    assert LiveAmong(b, x, y, o[4..]) == Live(b, x, y + 1) + LiveAmong(b, x, y, o[5..]);
    assert LiveAmong(b, x, y, o[3..]) == Live(b, x, y - 1) + LiveAmong(b, x, y, o[4..]);
    assert LiveAmong(b, x, y, o[2..]) == Live(b, x - 1, y + 1) + LiveAmong(b, x, y, o[3..]);
    assert LiveAmong(b, x, y, o[1..]) == Live(b, x - 1, y) + LiveAmong(b, x, y, o[2..]);
    assert LiveAmong(b, x, y, o) == Live(b, x - 1, y - 1) + LiveAmong(b, x, y, o[1..]);
  }

  /** The cell's own value never enters its count: overwriting it leaves the count unchanged. */
  lemma NeighboursIgnoreCentre(b: Board, x: int, y: int, v: FieldValue)
    requires InGrid(b, x, y)
    ensures Neighbours(b[x := b[x][y := v]], x, y) == Neighbours(b, x, y)
  {
    var b' := b[x := b[x][y := v]];
    NeighboursExpanded(b, x, y);
    NeighboursExpanded(b', x, y);
    forall p, q | p != x || q != y
      ensures Live(b', p, q) == Live(b, p, q)
    {
    }
  }

  /**
   * On a square board the outside is dead, so a cell on the border has at
   * most 5 live neighbours and a corner cell at most 3.
   */
  lemma BorderBounds(b: Board, n: int, x: int, y: int)
    requires IsSquare(b, n) && 0 <= x < n && 0 <= y < n
    ensures (x == 0 || x == n - 1 || y == 0 || y == n - 1) ==> Neighbours(b, x, y) <= 5
    ensures (x == 0 || x == n - 1) && (y == 0 || y == n - 1) ==> Neighbours(b, x, y) <= 3
  {
    NeighboursExpanded(b, x, y);
    assert Live(b, -1, y - 1) == Live(b, -1, y) == Live(b, -1, y + 1) == 0;
    assert Live(b, n, y - 1) == Live(b, n, y) == Live(b, n, y + 1) == 0;
    assert Live(b, x - 1, -1) == Live(b, x, -1) == Live(b, x + 1, -1) == 0;
    assert Live(b, x - 1, n) == Live(b, x, n) == Live(b, x + 1, n) == 0;
  }

  /** The 3x3 window around (x, y) as the neighbour counter builds it: row i, column j is offset (i-1, j-1). */
  function Window(b: Board, x: int, y: int): (w: Board)
    ensures |w| == 3 && forall i :: 0 <= i < 3 ==> |w[i]| == 3
  {
    seq(3, i => seq(3, j => At(b, x + i - 1, y + j - 1)))
  }

  /**
   * Live cells of window w visited before position (i, j) in row-major order,
   * skipping the centre.
   */
  function WindowCount(w: Board, i: nat, j: nat): nat
    requires |w| == 3 && (forall r :: 0 <= r < 3 ==> |w[r]| == 3)
    requires (i < 3 && j <= 3) || (i == 3 && j == 0)
    decreases i, j
  {
    if j == 0 then
      (if i == 0 then 0 else WindowCount(w, i - 1, 3))
    else
      WindowCount(w, i, j - 1) + (if !(i == 1 && j - 1 == 1) && w[i][j - 1] == ACTIVE then 1 else 0)
  }

  /** Walking the whole window counts exactly the eight neighbours. */
  lemma WindowCountAll(b: Board, x: int, y: int)
    ensures WindowCount(Window(b, x, y), 3, 0) == Neighbours(b, x, y)
  {
    var w := Window(b, x, y);
    NeighboursExpanded(b, x, y);
    assert WindowCount(w, 1, 0) == WindowCount(w, 0, 3) == Live(b, x - 1, y - 1) + Live(b, x - 1, y) + Live(b, x - 1, y + 1);
    assert WindowCount(w, 2, 0) == WindowCount(w, 1, 3) == WindowCount(w, 1, 0) + Live(b, x, y - 1) + Live(b, x, y + 1);
    assert WindowCount(w, 3, 0) == WindowCount(w, 2, 3) ==
      WindowCount(w, 2, 0) + Live(b, x + 1, y - 1) + Live(b, x + 1, y) + Live(b, x + 1, y + 1);
  }

  /**
   * The generation rule, in the shape of the grid's branch on the old value:
   * fewer than two or more than three neighbours kill, two keep the value,
   * three bring the cell to life.
   */
  function Rule(v: FieldValue, count: int): (r: FieldValue)
    ensures count < 2 || count > 3 ==> r == INACTIVE
    ensures count == 2 ==> r == v
    ensures count == 3 ==> r == ACTIVE
  {
    match v
    case ACTIVE => if count < 2 || count > 3 then INACTIVE else ACTIVE
    case INACTIVE => if count == 3 then ACTIVE else INACTIVE
  }

  /** Survival on 2 or 3 neighbours, birth on exactly 3 (B3/S23). */
  lemma RuleB3S23(v: FieldValue, count: int)
    ensures Rule(v, count) == ACTIVE <==>
      (v == ACTIVE && (count == 2 || count == 3)) || (v == INACTIVE && count == 3)
  {
  }

  /** One generation: the rule applied to every cell of the unchanged snapshot. */
  function Step(b: Board): (r: Board)
    ensures |r| == |b|
    ensures forall i :: 0 <= i < |b| ==> |r[i]| == |b[i]|
    ensures forall i, j {:trigger r[i][j]} :: 0 <= i < |b| && 0 <= j < |b[i]| ==> r[i][j] == Rule(b[i][j], Neighbours(b, i, j))
  {
    seq(|b|, i requires 0 <= i < |b| =>
      seq(|b[i]|, j requires 0 <= j < |b[i]| => Rule(b[i][j], Neighbours(b, i, j))))
  }

  /** k generations in a row. */
  function Iterate(b: Board, k: nat): Board
  {
    if k == 0 then b else Step(Iterate(b, k - 1))
  }

  lemma {:induction false} IterateSquare(b: Board, n: int, k: nat)
    requires IsSquare(b, n)
    ensures IsSquare(Iterate(b, k), n)
  {
    if k > 0 {
      IterateSquare(b, n, k - 1);
    }
  }

  /** The board whose cell (i, j) takes the (i*n + j)-th supplied random bit. */
  function Seeded(bits: seq<bool>, n: nat): (r: Board)
    requires |bits| >= n * n
    ensures IsSquare(r, n)
  {
    seq(n, i requires 0 <= i < n =>
      seq(n, j requires 0 <= j < n => (RowMajorBound(i, j, n); if bits[i * n + j] then ACTIVE else INACTIVE)))
  }

  lemma RowMajorBound(i: int, j: int, n: int)
    requires 0 <= i < n && 0 <= j < n
    ensures 0 <= i * n + j < n * n
  {
    MulMonotone(0, i, n);
    MulMonotone(i + 1, n, n);
    assert i * n + n == (i + 1) * n;
  }

  /** The all-dead board a fresh grid starts with. */
  function Dead(n: nat): (r: Board)
    ensures IsSquare(r, n)
  {
    seq(n, i => seq(n, j => INACTIVE))
  }

  /** Live cells of one row, counted from the left; never more than the row has cells. */
  function RowAlive(row: seq<FieldValue>): (r: nat)
    ensures r <= |row|
  {
    if row == [] then 0 else RowAlive(row[..|row| - 1]) + (if row[|row| - 1] == ACTIVE then 1 else 0)
  }

  /** Number of live cells, summed row by row. */
  function AliveCount(b: Board): nat
  {
    if b == [] then 0 else AliveCount(b[..|b| - 1]) + RowAlive(b[|b| - 1])
  }

  /** A row counts zero exactly when every cell in it is dead. */
  lemma {:induction false} RowAliveZero(row: seq<FieldValue>)
    ensures RowAlive(row) == 0 <==> forall k :: 0 <= k < |row| ==> row[k] == INACTIVE
  {
    if row != [] {
      var front := row[..|row| - 1];
      RowAliveZero(front);
      assert forall k :: 0 <= k < |front| ==> front[k] == row[k];
    }
  }

  /** The board counts zero live cells exactly when every cell is dead. */
  lemma {:induction false} AliveCountZero(b: Board)
    ensures AliveCount(b) == 0 <==> forall i, j :: 0 <= i < |b| && 0 <= j < |b[i]| ==> b[i][j] == INACTIVE
  {
    if b != [] {
      var front := b[..|b| - 1];
      AliveCountZero(front);
      RowAliveZero(b[|b| - 1]);
      assert forall i :: 0 <= i < |front| ==> front[i] == b[i];
    }
  }

  /** A square board of side n has at most n*n live cells, so the dead count is never negative. */
  lemma {:induction false} AliveCountBound(b: Board, n: nat)
    requires |b| <= n && forall i :: 0 <= i < |b| ==> |b[i]| == n
    ensures AliveCount(b) <= |b| * n
  {
    if b != [] {
      AliveCountBound(b[..|b| - 1], n);
      assert (|b| - 1) * n + n == |b| * n;
    }
  }
}
