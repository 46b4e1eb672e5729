# jGameOfLife in Dafny

This project models the engine of jGameOfLife, a desktop version of Conway's
Game of Life, and proves properties of that model.

- **Board.** The game is a square board of `nrOfFields x nrOfFields` cells.
  Each cell is `fieldSize` pixels wide.
- **Cell.** A cell (`Cells.Cell`) knows its row `x`, its column `y` and its
  pixel size. It also holds its value, `ACTIVE` (letter `O`) or `INACTIVE`
  (letter `X`), and a highlight flag. Its hit test `Inside` is strict on all
  four sides, so a pixel that lies on a grid line belongs to no cell.
- **Grid** (`GameFields.GameField`). The grid keeps two `array2`s of cells:
  the field and a back buffer.
  - A generation builds a new cell for every position in the back buffer.
    Its value comes from the rule, applied to the unchanged old cells.
    The new cells are then copied into the field.
  - Each cell's neighbours come from a 3x3 window (`GameFields.AdjacentCells`).
    The window fills every off-board position with a fresh dead cell. There
    is no wrap-around.
  - Every method is proved against the board value `Values()`. The pure
    definitions in module `Life` give the meaning: `Step`, `Neighbours`,
    `Rule`, `AliveCount`, `Seeded` and `Dead`.
- **Game** (`Games.Game`). The game holds the grid, the generation counter,
  the `gameLoopRunning` and `run` flags, and the delay between generations.
  - `reset` and `clear` each replace the grid with a fresh one.
  - `loop` steps the board until another thread clears `run`.
  - A single step is refused while a loop is running.
- **Pattern file codec** (`PatternCodec`).
  - The first line is the header `jgol;<nrOfFields>;<fieldSize>`. Each later
    line is one board row, written as `O`/`X` letters.
  - The reader is proved equal to the function `Decode`. `Decode` follows the
    Java reader's error order: wrong header arity, non-numeric count, unknown
    name, missing header or negative count, field size below 2.
  - Cells that no row supplies stay absent (`None`). A row or a character
    beyond the declared count is an index error.
  - The writer is proved equal to the function `Encode`, and
    `Decode(Encode(field)) == Ok(...)` is proved.
- **Java library calls.** The codec depends on `String.split`,
  `Integer.parseInt` and `StringBuilder.append(int)`. They are modelled in
  `JavaStrings` with their Java semantics:
  - `split(";")` drops trailing empty pieces and returns `[s]` when the
    separator is absent.
  - `split("")` returns one piece per character.
  - `parseInt` accepts an optional sign and decimal digits within 32-bit range.

Two copies of the game class exist, in the package `de.calltopower.jgol`
and the older package `com.calltopower.jgol.jgol`. They behave the same on
everything modelled here, so `Games.Game` models both. The table below cites
the newer copy. In the older `src/com/calltopower/jgol/jgol/impl/GameImpl.java`
the same members sit at lines 49-65 (constructor), 68-72 (`init`), 100-102
(`isGameRunning`), 125-135 (`reset`), 143-154 (`loop`), 162-171 (`clear`),
174-178 (`generateNextGeneration`) and 199-200 (the dead count).

Behaviours of the code that a reader might not expect, all modelled as
written:
- The writer always appends `.jgol` to the file name, even when the name
  already ends with it (`PatternCodec.FileName`).
- The reader does not check that the number of rows, or of letters in a row,
  equals the declared count. Missing cells stay absent, and surplus ones
  raise an index error (`PatternCodec.DecodeExample`,
  `PatternCodec.DecodeRowTooLong`).
- The grid's `get` compares the indices against the pixel dimension, not
  the cell count (`GameFields.ValidCoordinateAdmitsIndexN`). The array
  access then rejects an index in `[nrOfFields, nrOfFields*fieldSize)`.
  So `Get` fails exactly outside `[0, nrOfFields)`.

## Model

| member | source | states |
|---|---|---|
| FieldValues.FieldValue.Value | src/main/java/de/calltopower/jgol/enums/FieldValue.java:17-41 | the letter is one character; it is "O" exactly for ACTIVE and "X" exactly for INACTIVE |
| FieldValues.FieldValue.ToString | src/main/java/de/calltopower/jgol/enums/FieldValue.java:44-46 | the printed form is one letter, "O" exactly for ACTIVE and "X" exactly for INACTIVE |
| FieldValues.Toggled | src/main/java/de/calltopower/jgol/impl/FieldImpl.java:83-85 | toggling always changes the value |
| FieldValues.ToggledTwice | src/main/java/de/calltopower/jgol/impl/FieldImpl.java:83-85 | toggling twice gives the value back |
| FieldValues.LetterInjective | src/main/java/de/calltopower/jgol/enums/FieldValue.java:39-46 | distinct values have distinct letters, and the printed form is the letter |
| Cells.Inside | src/main/java/de/calltopower/jgol/impl/FieldImpl.java:73-75 | the strict test can only hold for cells at least 2 pixels wide |
| Cells.Cell.IsInside | src/main/java/de/calltopower/jgol/impl/FieldImpl.java:73-75 | the pixel is inside exactly when the size is positive, neither coordinate lies on a grid line, and the quotients by the size are the cell's row and column |
| Cells.Cell.constructor | src/main/java/de/calltopower/jgol/impl/FieldImpl.java:39-45 | a new cell has the given position, size and value, and is not highlighted |
| Cells.Cell.SetValue | src/main/java/de/calltopower/jgol/impl/FieldImpl.java:78-80 | the value becomes the argument; nothing else changes |
| Cells.Cell.ToggleValue | src/main/java/de/calltopower/jgol/impl/FieldImpl.java:83-85 | ACTIVE and INACTIVE swap |
| Cells.Cell.SetHighlighted | src/main/java/de/calltopower/jgol/impl/FieldImpl.java:88-90 | only the highlight flag changes |
| Cells.InsideBand | src/main/java/de/calltopower/jgol/impl/FieldImpl.java:73-75 | the strict pixel band of row x holds c exactly when c is no multiple of the size and c / size == x |
| Cells.InsideIff | src/main/java/de/calltopower/jgol/impl/FieldImpl.java:73-75 | the hit test holds exactly when both coordinates are off the grid lines and their quotients by the size are the cell's position |
| Cells.InsideUnique | src/main/java/de/calltopower/jgol/impl/FieldImpl.java:73-75 | no pixel is inside two different cells |
| Cells.GridLineInsideNone | src/main/java/de/calltopower/jgol/impl/FieldImpl.java:73-75 | a pixel on a grid line is inside no cell |
| Life.LiveAmong | src/main/java/de/calltopower/jgol/impl/AdjacentCellsImpl.java:55-66 | the live count over a list of offsets never exceeds the list's length |
| Life.Neighbours | src/main/java/de/calltopower/jgol/impl/AdjacentCellsImpl.java:55-66 | a cell has at most 8 live neighbours |
| Life.NeighboursExpanded | src/main/java/de/calltopower/jgol/impl/AdjacentCellsImpl.java:38-52 | the count is the sum over the eight surrounding positions, with off-board positions dead |
| Life.NeighboursIgnoreCentre | src/main/java/de/calltopower/jgol/impl/AdjacentCellsImpl.java:59 | the centre is skipped: changing the cell itself leaves its neighbour count unchanged |
| Life.BorderBounds | src/main/java/de/calltopower/jgol/impl/AdjacentCellsImpl.java:45-49 | off-board positions count as dead: at most 5 live neighbours on the border, at most 3 in a corner |
| Life.Window | src/main/java/de/calltopower/jgol/impl/AdjacentCellsImpl.java:38-52 | the window is 3x3 |
| Life.WindowCountAll | src/main/java/de/calltopower/jgol/impl/AdjacentCellsImpl.java:55-66 | walking the window in row-major order and skipping the centre counts exactly the neighbours |
| Life.Rule | src/main/java/de/calltopower/jgol/impl/GameFieldImpl.java:126-138 | fewer than 2 or more than 3 neighbours give INACTIVE, exactly 2 keep the old value, exactly 3 give ACTIVE |
| Life.RuleB3S23 | src/main/java/de/calltopower/jgol/impl/GameFieldImpl.java:126-138 | the next value is ACTIVE exactly for a live cell with 2 or 3 neighbours or a dead cell with 3 |
| Life.Step | src/main/java/de/calltopower/jgol/impl/GameFieldImpl.java:119-147 | the next board has the same shape, and each cell is the rule applied to the old cell and its old neighbour count |
| Life.IterateSquare | src/main/java/de/calltopower/jgol/impl/GameImpl.java:128-139 | any number of generations keeps the board n x n |
| Life.Seeded | src/main/java/de/calltopower/jgol/impl/GameFieldImpl.java:187-193 | a seeded board is n x n |
| Life.Dead | src/main/java/de/calltopower/jgol/impl/GameFieldImpl.java:224-231 | the initial all-dead board is n x n |
| Life.RowAlive | src/main/java/de/calltopower/jgol/impl/GameFieldImpl.java:152-158 | a row has no more live cells than cells |
| Life.RowAliveZero | src/main/java/de/calltopower/jgol/impl/GameFieldImpl.java:152-158 | a row counts zero exactly when all its cells are dead |
| Life.AliveCountZero | src/main/java/de/calltopower/jgol/impl/GameFieldImpl.java:150-161 | the board's live count is zero exactly when every cell is dead |
| Life.AliveCountBound | src/main/java/de/calltopower/jgol/impl/GameImpl.java:181-182 | the live count of rows of width n is at most rows * n, so the dead count is never negative |
| GameFields.ToggleAt | src/main/java/de/calltopower/jgol/impl/GameFieldImpl.java:74-83 | a click keeps the board's shape |
| GameFields.ToggleAtTwice | src/main/java/de/calltopower/jgol/impl/GameFieldImpl.java:74-83 | clicking the same pixel twice restores the board |
| GameFields.ToggleAtChangesAtMostOne | src/main/java/de/calltopower/jgol/impl/GameFieldImpl.java:74-83 | a click changes at most one cell, and none when it lands on a grid line |
| GameFields.ToggleOutside | src/main/java/de/calltopower/jgol/impl/GameFieldImpl.java:74-83 | a click at or beyond the edge of the drawn n x n grid changes no cell |
| GameFields.GameField.constructor | src/main/java/de/calltopower/jgol/impl/GameFieldImpl.java:38-49 | a new grid is valid, n x n, all dead and unhighlighted, with fresh cells |
| GameFields.GameField.InitFieldsWith | src/main/java/de/calltopower/jgol/impl/GameFieldImpl.java:224-231 | every cell becomes a fresh cell with the given value at its own position |
| GameFields.GameField.Get | src/main/java/de/calltopower/jgol/impl/GameFieldImpl.java:57-62 | an index error exactly when a coordinate is outside [0, n); otherwise the cell at (x, y) with the board's value |
| GameFields.GameField.Set | src/main/java/de/calltopower/jgol/impl/GameFieldImpl.java:86-92 | Ok(true) and one cell updated when in range; an index error and an unchanged board otherwise |
| GameFields.GameField.HighlightField | src/main/java/de/calltopower/jgol/impl/GameFieldImpl.java:65-71 | values unchanged; a cell is highlighted exactly when the pixel is inside it |
| GameFields.GameField.ToggleField | src/main/java/de/calltopower/jgol/impl/GameFieldImpl.java:74-83 | the board becomes ToggleAt of the old board |
| GameFields.GameField.SetValues | src/main/java/de/calltopower/jgol/impl/GameFieldImpl.java:100-111 | Ok(false) exactly on a row-count or first-row-width mismatch, leaving the board unchanged; an index error exactly when the grid is empty or a later row is short; on Ok(true) the board equals the argument |
| GameFields.GameField.Seed | src/main/java/de/calltopower/jgol/impl/GameFieldImpl.java:187-193 | the board becomes the one the supplied random bits describe, in row-major order |
| GameFields.GameField.NrOfAliveCells | src/main/java/de/calltopower/jgol/impl/GameFieldImpl.java:150-161 | the result is the board's live count |
| GameFields.GameField.RowAliveCells | src/main/java/de/calltopower/jgol/impl/GameFieldImpl.java:153-157 | the inner loop's count is the live count of row i |
| GameFields.GameField.IsValidCoordinate | src/main/java/de/calltopower/jgol/impl/GameFieldImpl.java:216-218 | the check admits every index of the grid |
| GameFields.GameField.GenerateNewGeneration | src/main/java/de/calltopower/jgol/impl/GameFieldImpl.java:119-147 | the board becomes Step of the old board, in fresh unhighlighted cells |
| GameFields.GameField.FillBackbuffer | src/main/java/de/calltopower/jgol/impl/GameFieldImpl.java:120-140 | the back buffer holds fresh cells with the next generation's values, and the field is untouched |
| GameFields.GameField.FillRow | src/main/java/de/calltopower/jgol/impl/GameFieldImpl.java:121-139 | one back-buffer row holds fresh cells with the next generation's values |
| GameFields.GameField.NextCell | src/main/java/de/calltopower/jgol/impl/GameFieldImpl.java:122-138 | a fresh cell at (i, j) whose value is Step of the current board there |
| GameFields.GameField.NeighbourCount | src/main/java/de/calltopower/jgol/impl/GameFieldImpl.java:124-125 | the count equals Neighbours on the current board |
| GameFields.ApplyRule | src/main/java/de/calltopower/jgol/impl/GameFieldImpl.java:126-138 | the cell's new value is Rule of its old value and the count |
| GameFields.ValidCoordinateAdmitsIndexN | src/main/java/de/calltopower/jgol/impl/GameFieldImpl.java:216-218 | the coordinate check admits the index n, which the array does not have |
| GameFields.AdjacentCells.constructor | src/main/java/de/calltopower/jgol/impl/AdjacentCellsImpl.java:30-35 | the window is valid for the given grid and centre cell |
| GameFields.AdjacentCells.Init | src/main/java/de/calltopower/jgol/impl/AdjacentCellsImpl.java:38-52 | each window slot holds the value At of the board at the offset position, with dead cells off the board |
| GameFields.AdjacentCells.Fetch | src/main/java/de/calltopower/jgol/impl/AdjacentCellsImpl.java:45-49 | the fetched cell's value is the board's value, or dead when the grid rejects the index |
| GameFields.AdjacentCells.NumberOfActiveNeighbors | src/main/java/de/calltopower/jgol/impl/AdjacentCellsImpl.java:55-66 | the result is Neighbours of the centre cell, between 0 and 8 |
| Games.Game.constructor | src/main/java/de/calltopower/jgol/impl/GameImpl.java:60-76 | counter 0, both flags down, default delay 100, a fresh grid seeded from the bits |
| Games.Game.Init | src/main/java/de/calltopower/jgol/impl/GameImpl.java:79-83 | resets exactly when no loop is running; otherwise nothing changes |
| Games.Game.Reset | src/main/java/de/calltopower/jgol/impl/GameImpl.java:111-120 | a fresh seeded grid, counter 0, both flags down, delay kept |
| Games.Game.Clear | src/main/java/de/calltopower/jgol/impl/GameImpl.java:147-155 | a fresh all-dead grid, counter 0, both flags down, delay kept |
| Games.Game.ResetGenerationTimeout | src/main/java/de/calltopower/jgol/impl/GameImpl.java:123-125 | the delay becomes the default |
| Games.Game.SetGenerationTimeout | src/com/calltopower/jgol/jgol/impl/GameImpl.java:113-116 | the delay becomes the argument (the older package writes the setter out; the newer one has it generated by Lombok's `@Setter` on the field, `src/main/java/de/calltopower/jgol/impl/GameImpl.java` lines 43-45) |
| Games.Game.Loop | src/main/java/de/calltopower/jgol/impl/GameImpl.java:128-139 | if no loop was running, after `rounds` generations the board is Iterate(old board, rounds), the counter has grown by rounds and both flags are down; otherwise nothing changes; after at least one generation no cell is highlighted |
| Games.Game.Pause | src/main/java/de/calltopower/jgol/impl/GameImpl.java:142-144 | `run` is cleared and nothing else changes |
| Games.Game.GenerateNextGeneration | src/main/java/de/calltopower/jgol/impl/GameImpl.java:158-162 | one Step and counter + 1 when no loop is running; nothing otherwise |
| Games.Game.GenerateNextGenerationInternal | src/main/java/de/calltopower/jgol/impl/GameImpl.java:203-211 | counter + 1 and the board becomes Step of the old board; flags and delay kept |
| Games.Game.IsRunning | src/main/java/de/calltopower/jgol/impl/GameImpl.java:91-93 | the result is the loop flag |
| Games.Game.GetFieldValue | src/main/java/de/calltopower/jgol/impl/GameImpl.java:86-88 | an index error exactly outside [0, n); otherwise the board's value at (x, y) |
| Games.Game.SetValues | src/main/java/de/calltopower/jgol/impl/GameImpl.java:96-102 | the grid's answer to setValues, with the same three outcomes; highlights stay |
| Games.Game.ToggleField | src/main/java/de/calltopower/jgol/impl/GameImpl.java:105-108 | the board becomes ToggleAt of the old board; highlights stay |
| Games.Game.HighlightField | src/main/java/de/calltopower/jgol/impl/GameImpl.java:165-168 | values unchanged; exactly the cell under the pixel is highlighted |
| Games.Game.AliveCells | src/main/java/de/calltopower/jgol/impl/GameImpl.java:181 | the live count, between 0 and n*n |
| Games.Game.DeadCells | src/main/java/de/calltopower/jgol/impl/GameImpl.java:182 | n*n minus the live count, never negative |
| JavaStrings.SplitAll | src/com/calltopower/jgol/jgol/utils/FileUtils.java:61 | splitting gives at least one piece |
| JavaStrings.JavaSplit | src/com/calltopower/jgol/jgol/utils/FileUtils.java:61 | no piece contains the separator, and when the text holds one, the last piece (if any) is nonempty |
| JavaStrings.DropTrailingEmpty | src/com/calltopower/jgol/jgol/utils/FileUtils.java:61 | the result is a prefix that does not end in an empty piece, and only empty pieces were dropped |
| JavaStrings.SplitChars | src/com/calltopower/jgol/jgol/utils/FileUtils.java:87 | an empty line gives one piece; otherwise there is one piece per character, holding that character |
| JavaStrings.ParseInt | src/com/calltopower/jgol/jgol/utils/FileUtils.java:66-67 | an accepted number lies in the 32-bit range; the empty string is rejected |
| JavaStrings.DigitChar | src/com/calltopower/jgol/jgol/utils/FileUtils.java:114 | the character is the digit of the given value |
| JavaStrings.NatToString | src/com/calltopower/jgol/jgol/utils/FileUtils.java:114-116 | nonempty, all digits, and the digits' value is the number |
| JavaStrings.IntToString | src/com/calltopower/jgol/jgol/utils/FileUtils.java:114-116 | the text of a number is never empty |
| JavaStrings.ParseIntToString | src/com/calltopower/jgol/jgol/utils/FileUtils.java:66-67 | parsing the decimal text of a 32-bit number gives the number back |
| JavaStrings.SplitAllNoSep | src/com/calltopower/jgol/jgol/utils/FileUtils.java:61 | text without the separator is one piece |
| JavaStrings.SplitAllCons | src/com/calltopower/jgol/jgol/utils/FileUtils.java:61 | splitting after a separator-free prefix yields the prefix, then the split of the rest |
| JavaStrings.NoSepInIntToString | src/com/calltopower/jgol/jgol/utils/FileUtils.java:111-116 | a number's text never contains ';' |
| JavaStrings.SplitThree | src/com/calltopower/jgol/jgol/utils/FileUtils.java:61-62 | three separator-free fields, the last nonempty, split back into exactly those three |
| JavaStrings.SplitThreeTrailing | src/com/calltopower/jgol/jgol/utils/FileUtils.java:61-62 | a trailing separator does not change that split |
| PatternCodec.PieceValue | src/com/calltopower/jgol/jgol/utils/FileUtils.java:89 | a piece reads as ACTIVE exactly when it is "O"; every other piece is INACTIVE |
| PatternCodec.ParseHeader | src/com/calltopower/jgol/jgol/utils/FileUtils.java:61-70 | an accepted header names "jgol" and carries two 32-bit numbers |
| PatternCodec.DecodeValues | src/com/calltopower/jgol/jgol/utils/FileUtils.java:84-91 | a filled grid is n x n, a cell is present exactly when its row supplies that letter, and the only failure is the index error |
| PatternCodec.Decode | src/com/calltopower/jgol/jgol/utils/FileUtils.java:51-94 | an accepted file is nonempty, is named "jgol", has 0 <= count and 2 <= size, both within 32 bits, and an n x n value grid |
| PatternCodec.ReadFromFile | src/com/calltopower/jgol/jgol/utils/FileUtils.java:51-94 | the reader's answer is Decode of the file's lines |
| PatternCodec.ScanLines | src/com/calltopower/jgol/jgol/utils/FileUtils.java:56-74 | the header parse is HeaderOf of the lines, and every line after the first is collected |
| PatternCodec.FillValues | src/com/calltopower/jgol/jgol/utils/FileUtils.java:84-91 | the filled grid, or the index error, is DecodeValues of the rows |
| PatternCodec.RowLine | src/com/calltopower/jgol/jgol/utils/FileUtils.java:119-125 | a written row has exactly the first row's width in letters |
| PatternCodec.Encode | src/com/calltopower/jgol/jgol/utils/FileUtils.java:105-125 | one header line plus one line per row |
| PatternCodec.WriteToFile | src/com/calltopower/jgol/jgol/utils/FileUtils.java:105-128 | the lines written are Encode of the field, and the path is FileName of the name |
| PatternCodec.Header | src/com/calltopower/jgol/jgol/utils/FileUtils.java:111-117 | the header splits at ';' into exactly the name, the count's text and the size's text |
| PatternCodec.WriteHeader | src/com/calltopower/jgol/jgol/utils/FileUtils.java:111-117 | the line the builder appends is Header of the count and size |
| PatternCodec.WriteRow | src/com/calltopower/jgol/jgol/utils/FileUtils.java:120-124 | the row built is RowLine of the cells |
| PatternCodec.DecodeRejectsArity | src/com/calltopower/jgol/jgol/utils/FileUtils.java:61-64 | a header that does not split into 3 pieces is HeaderUnknown |
| PatternCodec.DecodeRejectsNumber | src/com/calltopower/jgol/jgol/utils/FileUtils.java:66-67 | a count or size that does not parse is NumberFormat |
| PatternCodec.DecodeRejectsName | src/com/calltopower/jgol/jgol/utils/FileUtils.java:68-70 | a name other than "jgol" is HeaderNameUnknown |
| PatternCodec.DecodeRejectsCorrupt | src/com/calltopower/jgol/jgol/utils/FileUtils.java:76-78 | an empty file or a negative count is HeaderCorrupt |
| PatternCodec.DecodeRejectsSmallSize | src/com/calltopower/jgol/jgol/utils/FileUtils.java:80-82 | a field size below 2 is FieldSizeTooSmall |
| PatternCodec.DecodeAccepts | src/com/calltopower/jgol/jgol/utils/FileUtils.java:51-94 | the file is accepted exactly when the header is well formed and valid and no row or letter exceeds the count |
| PatternCodec.DecodeContents | src/com/calltopower/jgol/jgol/utils/FileUtils.java:84-91 | a cell is present exactly when its row supplies that letter, and it is ACTIVE exactly when the letter is 'O' |
| PatternCodec.EncodeLines | src/com/calltopower/jgol/jgol/utils/FileUtils.java:111-125 | the header is "jgol;" + count + ";" + size, and each row's letters are the cells' letters |
| PatternCodec.FileName | src/com/calltopower/jgol/jgol/utils/FileUtils.java:126 | the path is the name followed by ".jgol", even when the name already ends with it |
| PatternCodec.HeaderRoundTrip | src/com/calltopower/jgol/jgol/utils/FileUtils.java:111-117 | a written header with 32-bit numbers parses back to ("jgol", count, size) |
| PatternCodec.EncodedCell | src/com/calltopower/jgol/jgol/utils/FileUtils.java:119-125 | each written row of an n x n field has n letters, and each reads back as its cell |
| PatternCodec.EncodedValues | src/com/calltopower/jgol/jgol/utils/FileUtils.java:84-91 | the written rows of an n x n field decode to that field, with every cell present |
| PatternCodec.DecodeEncode | src/com/calltopower/jgol/jgol/utils/FileUtils.java:105-128 | reading a written n x n field with a valid size gives back the name, count, size and every cell |
| PatternCodec.HeaderTrailingSeparator | src/com/calltopower/jgol/jgol/utils/FileUtils.java:61 | a header with a trailing ';' splits like one without |
| PatternCodec.DecodeIgnoresTrailingSeparator | src/com/calltopower/jgol/jgol/utils/FileUtils.java:61-70 | a trailing ';' on the header does not change what is read |
| PatternCodec.ExampleRows | src/com/calltopower/jgol/jgol/utils/FileUtils.java:84-91 | rows "O" and "" for count 2 give one live cell, one dead cell and two absent cells |
| PatternCodec.DecodeExample | src/com/calltopower/jgol/jgol/utils/FileUtils.java:51-94 | a short file is accepted and its missing cells are absent |
| PatternCodec.DecodeRowTooLong | src/com/calltopower/jgol/jgol/utils/FileUtils.java:84-91 | a row longer than the count is an index error |

## Left out

- Drawing is not modelled: the Swing panels and the back image (`draw`, `redraw`, `drawFields`, `drawLines`, the status line's text), and colours.
- The window and controls UI, the `Application` and `JGameOfLife` entry points and `Helper` are not modelled.
- Threads and time are not modelled. `sleep(generationTimeout)` between generations is left out. A pause from another thread is represented by the `rounds` argument of `Games.Game.Loop`.
- `java.util.Random` is not modelled. `seed()` and `seed(long)` become `Seed(bits)`, where `bits` stands for the generator's `nextBoolean` answers in row-major order. The constructor, `Init` and `Reset` take the same bits.
- File input and output are not modelled. `readAllLines` and `Files.write`, with UTF-8 decoding and encoding, are replaced by the list of lines read or written. `IOException` messages become the `ReadError` constructors.
- Getters and the `FileData` accessors are not modelled: `getField`, `getX`, `getY`, `getSize`, `isHighlighted`, `getNrOfFields`, `getFieldSize`, `getGenerationTimeout`, `getGameField`. The model reads the fields directly.
- The debug printers are not modelled: `GameFieldImpl.toString`, `AdjacentCellsImpl.toString`, `FieldDimensionImpl.toString` and `FileData.toString`. `FieldValue.toString` is modelled as `FieldValues.FieldValue.ToString`.
- `FieldDimensionImpl` is represented by the grid's `dimension` number; the shape is always square.
- The interfaces in `api/` are not modelled.
- The older package's own `GameFieldImpl` is not part of this model. Its `GameImpl` is modelled over the same grid as the newer one.
- Games.Game.Loop: another thread's `pause` is represented as arriving after exactly `rounds` generations. A pause that races with a generation, and a loop that never pauses, are not modelled.
- 32-bit overflow in the games and grid is not modelled: `nrOfFields * fieldSize`, `nrOfFields * nrOfFields` and the `long` generation counter are unbounded integers.
- Memory exhaustion is not modelled: allocating `new FieldValue[size][size]` for a huge count in the reader is treated as always succeeding.
- Java `null` cells in the grid are not modelled. Every grid position holds a cell from construction on, as in the code.
- JavaStrings.ParseInt: accepts only ASCII digits. Java's `Integer.parseInt` also accepts other Unicode decimal digits.
- JavaStrings.SplitChars: splits per Unicode scalar value, because a Dafny `char` is a whole code point. Java's `split("")` splits per UTF-16 unit, so it splits a surrogate pair in two. A supplementary character (outside the Basic Multilingual Plane) is therefore two INACTIVE cells in Java and one here. The rest of that row shifts one position to the right in Java, and a row that fits the count here can raise the index error in Java.
- PatternCodec.DecodeValues: measures rows in code points, as `SplitChars` does. For rows with supplementary characters it can accept a row that Java rejects, and place its cells one position to the left of where Java puts them.
- PatternCodec.Decode: inherits that code-point measure from `DecodeValues`.
- PatternCodec.DecodeAccepts: characterises acceptance with the same code-point measure.
- GameFields.GameField.SetValues: the argument cannot hold `null` entries. Java accepts them and stores them in the cells. That happens when the grid is loaded from a pattern file with short or missing rows, whose absent cells `Decode` returns as `None`. The next live count then throws a NullPointerException. On the index-error path the contract says nothing about the board, which Java has partly overwritten before the exception.
- Games.Game.SetValues: the same `null` entries are excluded. In the newer package, `setValues` redraws straight after storing them, and the redraw's live count throws a NullPointerException.
- PatternCodec.WriteToFile: takes the cells' values rather than cell objects, so it cannot observe cells changing while the file is written.
