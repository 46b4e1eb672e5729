/**
 * The simulation: a grid plus the generation counter, the two loop flags and
 * the delay between generations. Drawing, the back image and the sleep
 * between generations are not part of this model.
 */
module Games {
  import opened Wrappers
  import opened FieldValues
  import opened GameFields
  import Life
  import Constants

  class Game {
    const nrOfFields: int
    const fieldSize: int
    /** nrOfFields * nrOfFields, fixed at construction. */
    const nrAllCells: int
    var gameField: GameField
    var generations: int
    var gameLoopRunning: bool
    var run: bool
    var generationTimeout: int

    /** The grid is valid and has the game's shape. */
    ghost predicate Valid()
      reads this, gameField, gameField.field
    {
      gameField.Valid() && gameField.nrOfFields == nrOfFields && gameField.fieldSize == fieldSize &&
      nrAllCells == nrOfFields * nrOfFields
    }

    /** The current board. */
    ghost function Values(): (b: Life.Board)
      requires Valid()
      reads this, gameField, gameField.field, gameField.Repr
      ensures Life.IsSquare(b, nrOfFields)
    {
      gameField.Values()
    }

    /**
     * Counter zero, both flags down, the default delay; then `init`, which
     * resets because the loop is not running. `bits` stands for the random
     * generator the reset seeds from.
     */
    constructor (nrOfFields: int, fieldSize: int, bits: seq<bool>)
      requires nrOfFields >= 0 && fieldSize > 0 && |bits| >= nrOfFields * nrOfFields
      ensures Valid() && fresh(gameField) && fresh(gameField.Repr)
      ensures this.nrOfFields == nrOfFields && this.fieldSize == fieldSize
      ensures generations == 0 && !gameLoopRunning && !run
      ensures generationTimeout == Constants.DefaultGenerationTimeout
      ensures Values() == Life.Seeded(bits, nrOfFields) && gameField.NoneHighlighted()
    {
      this.nrOfFields := nrOfFields;
      this.fieldSize := fieldSize;
      gameLoopRunning := false;
      generations := 0;
      run := false;
      nrAllCells := nrOfFields * nrOfFields;
      gameField := new GameField(nrOfFields, fieldSize);
      new;
      ResetGenerationTimeout();
      Init(bits);
    }

    /** Resets unless the loop is running. */
    method Init(bits: seq<bool>)
      requires Valid() && |bits| >= nrOfFields * nrOfFields
      modifies this, gameField.Repr
      ensures Valid()
      ensures old(gameLoopRunning) ==>
        gameField == old(gameField) && generations == old(generations) && gameLoopRunning && run == old(run) &&
        Values() == old(Values())
      ensures !old(gameLoopRunning) ==>
        fresh(gameField) && fresh(gameField.Repr) && generations == 0 && !gameLoopRunning && !run &&
        Values() == Life.Seeded(bits, nrOfFields) && gameField.NoneHighlighted()
      ensures generationTimeout == old(generationTimeout)
    {
      if !gameLoopRunning {
        Reset(bits);
      }
    }

    /** A fresh grid seeded from `bits`, counter zero, both flags down. */
    method Reset(bits: seq<bool>)
      requires Valid() && |bits| >= nrOfFields * nrOfFields
      modifies this
      ensures Valid() && fresh(gameField) && fresh(gameField.Repr)
      ensures generations == 0 && !gameLoopRunning && !run
      ensures Values() == Life.Seeded(bits, nrOfFields) && gameField.NoneHighlighted()
      ensures generationTimeout == old(generationTimeout)
    {
      gameField := new GameField(nrOfFields, fieldSize);
      gameLoopRunning := false;
      generations := 0;
      run := false;
      gameField.Seed(bits);
    }

    /** A fresh all-dead grid, counter zero, both flags down. */
    method Clear()
      requires Valid()
      modifies this
      ensures Valid() && fresh(gameField) && fresh(gameField.Repr)
      ensures generations == 0 && !gameLoopRunning && !run
      ensures Values() == Life.Dead(nrOfFields) && gameField.NoneHighlighted()
      ensures generationTimeout == old(generationTimeout)
    {
      gameField := new GameField(nrOfFields, fieldSize);
      gameLoopRunning := false;
      generations := 0;
      run := false;
    }

    method ResetGenerationTimeout()
      modifies this`generationTimeout
      ensures generationTimeout == Constants.DefaultGenerationTimeout
    {
      generationTimeout := Constants.DefaultGenerationTimeout;
    }

    method SetGenerationTimeout(timeout: int)
      modifies this`generationTimeout
      ensures generationTimeout == timeout
    {
      generationTimeout := timeout;
    }

    /**
     * The generation loop. Another thread ends it by clearing `run`; here that
     * pause is observed after exactly `rounds` generations. Does nothing when a
     * loop is already running.
     */
    method Loop(rounds: nat)
      requires Valid()
      modifies this, gameField, gameField.field, gameField.fieldBackbuffer
      ensures Valid() && gameField == old(gameField)
      ensures old(gameLoopRunning) ==>
        generations == old(generations) && gameLoopRunning && run == old(run) && Values() == old(Values())
      ensures !old(gameLoopRunning) ==>
        generations == old(generations) + rounds && !gameLoopRunning && !run &&
        Values() == Life.Iterate(old(Values()), rounds) && (rounds > 0 ==> gameField.NoneHighlighted())
      ensures generationTimeout == old(generationTimeout)
    {
      if !gameLoopRunning {
        gameLoopRunning := true;
        run := true;
        var k := 0;
        if k == rounds {
          Pause();
        }
        while run
          invariant Valid() && gameField == old(gameField)
          invariant 0 <= k <= rounds && (run <==> k < rounds) && gameLoopRunning
          invariant generations == old(generations) + k && generationTimeout == old(generationTimeout)
          invariant Values() == Life.Iterate(old(Values()), k)
          invariant k > 0 ==> gameField.NoneHighlighted()
          decreases rounds - k
        {
          GenerateNextGenerationInternal();
          k := k + 1;
          if k == rounds {
            Pause();
          }
        }
        gameLoopRunning := false;
      }
    }

    /** Asks a running loop to stop; nothing else changes. */
    method Pause()
      modifies this`run
      ensures !run
    {
      run := false;
    }

    /** One generation, but only while the loop is not running. */
    method GenerateNextGeneration()
      requires Valid()
      modifies this, gameField, gameField.field, gameField.fieldBackbuffer
      ensures Valid() && gameField == old(gameField)
      ensures old(gameLoopRunning) ==> generations == old(generations) && Values() == old(Values())
      ensures !old(gameLoopRunning) ==>
        generations == old(generations) + 1 && Values() == Life.Step(old(Values())) && gameField.NoneHighlighted()
      ensures gameLoopRunning == old(gameLoopRunning) && run == old(run)
      ensures generationTimeout == old(generationTimeout)
    {
      if !gameLoopRunning {
        GenerateNextGenerationInternal();
      }
    }

    /** Counts the generation and steps the grid. */
    method GenerateNextGenerationInternal()
      requires Valid()
      modifies this, gameField, gameField.field, gameField.fieldBackbuffer
      ensures Valid() && gameField == old(gameField)
      ensures generations == old(generations) + 1
      ensures Values() == Life.Step(old(Values())) && gameField.NoneHighlighted()
      ensures gameLoopRunning == old(gameLoopRunning) && run == old(run)
      ensures generationTimeout == old(generationTimeout)
    {
      generations := generations + 1;
      gameField.GenerateNewGeneration();
    }

    method IsRunning() returns (running: bool)
      ensures running == gameLoopRunning
    {
      return gameLoopRunning;
    }

    /** The value of the cell at row x, column y; IndexOutOfBounds outside the grid. */
    method GetFieldValue(x: int, y: int) returns (r: Result<FieldValue, IndexError>)
      requires Valid()
      ensures r.Err? <==> !(0 <= x < nrOfFields && 0 <= y < nrOfFields)
      ensures r.Ok? ==> r.value == Values()[x][y]
    {
      var got := gameField.Get(x, y);
      match got {
        case Ok(cell) =>
          return Ok(cell.value);
        case Err(e) =>
          return Err(e);
      }
    }

    /** Hands `values` to the grid and returns its answer; the counter, flags and highlights stay. */
    method SetValues(values: seq<seq<FieldValue>>) returns (r: Result<bool, IndexError>)
      requires Valid()
      modifies gameField.Repr
      ensures Valid()
      ensures r == Ok(false) <==> |values| != nrOfFields || (nrOfFields > 0 && |values[0]| != nrOfFields)
      ensures r.Err? <==> (|values| == nrOfFields &&
        (nrOfFields == 0 || (|values[0]| == nrOfFields && exists i :: 0 <= i < nrOfFields && |values[i]| < nrOfFields)))
      ensures r == Ok(false) ==> Values() == old(Values())
      ensures r == Ok(true) ==> forall i, j :: 0 <= i < nrOfFields && 0 <= j < nrOfFields ==> Values()[i][j] == values[i][j]
      ensures forall i, j :: 0 <= i < nrOfFields && 0 <= j < nrOfFields ==>
        gameField.field[i, j].highlighted == old(gameField.field[i, j].highlighted)
    {
      r := gameField.SetValues(values);
    }

    /** Flips the cell under pixel (x, y), if any; highlights stay. */
    method ToggleField(x: int, y: int)
      requires Valid()
      modifies gameField.Repr
      ensures Valid()
      ensures Values() == GameFields.ToggleAt(old(Values()), fieldSize, x, y)
      ensures forall i, j :: 0 <= i < nrOfFields && 0 <= j < nrOfFields ==>
        gameField.field[i, j].highlighted == old(gameField.field[i, j].highlighted)
    {
      gameField.ToggleField(x, y);
    }

    /** Highlights the cell under pixel (x, y), if any, and no other. */
    method HighlightField(x: int, y: int)
      requires Valid()
      modifies gameField.Repr
      ensures Valid() && Values() == old(Values())
      ensures forall i, j :: 0 <= i < nrOfFields && 0 <= j < nrOfFields ==>
        gameField.field[i, j].highlighted == Cells.Inside(i, j, fieldSize, y, x)
    {
      gameField.HighlightField(x, y);
    }

    /** Live cells, as the status line shows them. */
    method AliveCells() returns (alive: int)
      requires Valid()
      ensures alive == Life.AliveCount(Values())
      ensures 0 <= alive <= nrAllCells
    {
      alive := gameField.NrOfAliveCells();
      Life.AliveCountBound(Values(), nrOfFields);
    }

    /** Dead cells: all cells minus the live ones, never negative. */
    method DeadCells() returns (dead: int)
      requires Valid()
      ensures dead == nrOfFields * nrOfFields - Life.AliveCount(Values())
      ensures 0 <= dead <= nrAllCells
    {
      var alive := AliveCells();
      dead := nrAllCells - alive;
    }
  }
}
