/**
 * The plain-text pattern format: a header line "jgol;<cells per side>;<cell size>"
 * followed by one line per grid row, 'O' for a live cell and 'X' for a dead one.
 * Reading and writing work on the file's lines; opening and writing files is not modelled.
 */
module PatternCodec {
  import opened Wrappers
  import opened FieldValues
  import opened Constants
  import opened JavaStrings
  import Life

  /** A decoded pattern; a position the file did not mention stays None (a null entry). */
  datatype FileData = FileData(name: string, nrOfFields: int, fieldSize: int, values: seq<seq<Option<FieldValue>>>)

  /** The reasons reading a pattern fails, one per exception the reader can raise. */
  datatype ReadError =
    | HeaderUnknown      // the header does not have exactly three fields
    | NumberFormat       // a header number is not a 32-bit decimal
    | HeaderNameUnknown  // the header's name is not "jgol"
    | HeaderCorrupt      // no header at all, or a negative number of cells
    | FieldSizeTooSmall  // the cell size is below the minimum
    | ArrayIndexOutOfBounds  // more rows, or a longer row, than cells per side

  /** The value a one-character piece of a row stands for: only "O" is alive. */
  function PieceValue(piece: string): (v: FieldValue)
    ensures v == ACTIVE <==> piece == "O"
  {
    if piece == "O" then ACTIVE else INACTIVE
  }

  /** Name, cell count and cell size from the header line, checked in the reader's order. */
  function ParseHeader(line: string): (r: Result<(string, int, int), ReadError>)
    ensures r.Ok? ==> r.value.0 == DataName && MinInt <= r.value.1 <= MaxInt && MinInt <= r.value.2 <= MaxInt
  {
    var pieces := JavaSplit(line, DataSeparator);
    if |pieces| != 3 then Err(HeaderUnknown)
    else
      match (ParseInt(pieces[1]), ParseInt(pieces[2]))
      case (None, _) => Err(NumberFormat)
      case (Some(_), None) => Err(NumberFormat)
      case (Some(n), Some(size)) =>
        if pieces[0] != DataName then Err(HeaderNameUnknown) else Ok((pieces[0], n, size))
  }

  /** Entry (i, j) as the reader leaves it: set from row i's j-th piece when there is one, null otherwise. */
  function CellAt(rows: seq<string>, i: int, j: int): Option<FieldValue>
  {
    if 0 <= i < |rows| && 0 <= j < |SplitChars(rows[i])| then Some(PieceValue(SplitChars(rows[i])[j])) else None
  }

  /** Some row does not fit an n-by-n array. */
  predicate Overflows(rows: seq<string>, n: int)
  {
    |rows| > n || exists i :: 0 <= i < |rows| && |SplitChars(rows[i])| > n
  }

  /** The n-by-n array the rows fill, or the index error the first misfit raises. */
  function DecodeValues(rows: seq<string>, n: nat): (r: Result<seq<seq<Option<FieldValue>>>, ReadError>)
    ensures r.Ok? ==> Life.IsSquare(r.value, n)
    ensures r.Ok? ==> forall i, j :: 0 <= i < n && 0 <= j < n ==>
      (r.value[i][j].Some? <==> i < |rows| && j < |SplitChars(rows[i])|)
    ensures r.Err? ==> r.error == ArrayIndexOutOfBounds
  {
    if Overflows(rows, n) then Err(ArrayIndexOutOfBounds)
    else Ok(seq(n, i => seq(n, j => CellAt(rows, i, j))))
  }

  /** The reader header-first: the header's name, count and size, or the error the header raises. */
  function HeaderOf(allLines: seq<string>): Result<(string, int, int), ReadError>
  {
    if |allLines| == 0 then Ok(("", -1, -1)) else ParseHeader(allLines[0])
  }

  /**
   * The whole reader: header first (an empty file leaves the name "" and the
   * count -1), then the count and size checks, then the rows.
   */
  function Decode(allLines: seq<string>): (r: Result<FileData, ReadError>)
    ensures r.Ok? ==> |allLines| > 0 && r.value.name == DataName
    ensures r.Ok? ==> 0 <= r.value.nrOfFields <= MaxInt && MinFieldSize <= r.value.fieldSize <= MaxInt
    ensures r.Ok? ==> Life.IsSquare(r.value.values, r.value.nrOfFields)
  {
    match HeaderOf(allLines)
    case Err(e) => Err(e)
    case Ok((name, n, size)) =>
      if name == "" || n < 0 then Err(HeaderCorrupt)
      else if size < MinFieldSize then Err(FieldSizeTooSmall)
      else
        match DecodeValues(allLines[1..], n)
        case Err(e) => Err(e)
        case Ok(values) => Ok(FileData(name, n, size, values))
  }

  /** The reader, statement by statement: a header pass that collects the rows, the checks, then the fill. */
  method ReadFromFile(allLines: seq<string>) returns (r: Result<FileData, ReadError>)
    ensures r == Decode(allLines)
  {
    var header, lines := ScanLines(allLines);
    if header.Err? {
      return Err(header.error);
    }
    var (parsedName, parsedNrOfFields, parsedFieldSize) := header.value;
    if parsedName == "" || parsedNrOfFields < 0 {
      return Err(HeaderCorrupt);
    }
    if parsedFieldSize < MinFieldSize {
      return Err(FieldSizeTooSmall);
    }
    var values := FillValues(lines, parsedNrOfFields);
    if values.Err? {
      return Err(values.error);
    }
    r := Ok(FileData(parsedName, parsedNrOfFields, parsedFieldSize, values.value));
  }

  /** The pass over all lines: line 0 is parsed as the header, every later line is kept as a row. */
  method ScanLines(allLines: seq<string>) returns (header: Result<(string, int, int), ReadError>, lines: seq<string>)
    ensures header == HeaderOf(allLines)
    ensures header.Ok? && |allLines| > 0 ==> lines == allLines[1..]
  {
    lines := [];
    var parsedName := "";
    var parsedNrOfFields := -1;
    var parsedFieldSize := -1;
    var i := 0;
    while i < |allLines|
      invariant 0 <= i <= |allLines|
      invariant i == 0 ==> parsedName == "" && parsedNrOfFields == -1 && parsedFieldSize == -1
      invariant i > 0 ==> ParseHeader(allLines[0]) == Ok((parsedName, parsedNrOfFields, parsedFieldSize))
      invariant lines == if i == 0 then [] else allLines[1..i]
    {
      if i == 0 {
        var valSplit := JavaSplit(allLines[i], DataSeparator);
        if |valSplit| != 3 {
          return Err(HeaderUnknown), lines;
        }
        parsedName := valSplit[0];
        var nr := ParseInt(valSplit[1]);
        if nr.None? {
          return Err(NumberFormat), lines;
        }
        parsedNrOfFields := nr.value;
        var fs := ParseInt(valSplit[2]);
        if fs.None? {
          return Err(NumberFormat), lines;
        }
        parsedFieldSize := fs.value;
        if parsedName != DataName {
          return Err(HeaderNameUnknown), lines;
        }
      } else {
        lines := lines + [allLines[i]];
      }
      i := i + 1;
    }
    header := Ok((parsedName, parsedNrOfFields, parsedFieldSize));
  }

  /** The fill of a fresh size-by-size array, row i from line i, piece j into column j. */
  method FillValues(lines: seq<string>, size: nat) returns (r: Result<seq<seq<Option<FieldValue>>>, ReadError>)
    ensures r == DecodeValues(lines, size)
  {
    var values := new Option<FieldValue>[size, size]((_, _) => None);
    var i := 0;
    while i < |lines|
      invariant 0 <= i <= |lines|
      invariant forall k :: 0 <= k < i ==> k < size && |SplitChars(lines[k])| <= size
      invariant forall a, b :: 0 <= a < size && 0 <= b < size ==>
        values[a, b] == if a < i then CellAt(lines, a, b) else None
    {
      var valSplit := SplitChars(lines[i]);
      var j := 0;
      while j < |valSplit|
        invariant 0 <= j <= |valSplit|
        invariant j > 0 ==> i < size && j <= size
        invariant forall a, b :: 0 <= a < size && 0 <= b < size ==>
          values[a, b] == if a < i || (a == i && b < j) then CellAt(lines, a, b) else None
      {
        if i >= size || j >= size {
          assert Overflows(lines, size) by {
            if i < size {
              assert |SplitChars(lines[i])| > size;
            }
          }
          return Err(ArrayIndexOutOfBounds);
        }
        values[i, j] := Some(if valSplit[j] == "O" then ACTIVE else INACTIVE);
        j := j + 1;
      }
      i := i + 1;
    }
    var grid := seq(size, a requires 0 <= a < size reads values =>
      seq(size, b requires 0 <= b < size reads values => values[a, b]));
    assert !Overflows(lines, size) by {
      if |lines| > 0 {
        assert |SplitChars(lines[|lines| - 1])| <= size;
      }
    }
    forall a | 0 <= a < size
      ensures grid[a] == seq(size, b => CellAt(lines, a, b))
    {
    }
    assert grid == seq(size, a => seq(size, b => CellAt(lines, a, b)));
    r := Ok(grid);
  }

  /** The header line: name, count and size joined by the separator, so that it splits back into exactly those three. */
  function Header(nrOfFields: int, fieldSize: int): (s: string)
    ensures JavaSplit(s, DataSeparator) == [DataName, IntToString(nrOfFields), IntToString(fieldSize)]
  {
    var a, b, c := DataName, IntToString(nrOfFields), IntToString(fieldSize);
    assert DataSeparator !in a;
    NoSepInIntToString(nrOfFields, DataSeparator);
    NoSepInIntToString(fieldSize, DataSeparator);
    SplitThree(a, b, c, DataSeparator);
    a + [DataSeparator] + b + [DataSeparator] + c
  }

  /** The first `width` cells of a row as letters. */
  function RowLine(row: seq<FieldValue>, width: nat): (s: string)
    requires width <= |row|
    ensures |s| == width
  {
    seq(width, j requires 0 <= j < width => if row[j] == ACTIVE then 'O' else 'X')
  }

  /** Every row is at least as long as the first; the writer indexes every row up to that length. */
  predicate RowsCover(field: seq<seq<FieldValue>>)
  {
    forall i :: 0 <= i < |field| ==> |field[i]| >= |field[0]|
  }

  /** The lines the writer produces: the header, then each row cut to the first row's length. */
  function Encode(field: seq<seq<FieldValue>>, nrOfFields: int, fieldSize: int): (lines: seq<string>)
    requires RowsCover(field)
    ensures |lines| == |field| + 1
  {
    var width := if |field| == 0 then 0 else |field[0]|;
    [Header(nrOfFields, fieldSize)] + seq(|field|, i requires 0 <= i < |field| => RowLine(field[i], width))
  }

  /** Lines holding the header and then each row are the writer's output. */
  lemma EncodeByLines(field: seq<seq<FieldValue>>, nrOfFields: int, fieldSize: int, lines: seq<string>)
    requires RowsCover(field)
    requires |lines| == |field| + 1 && lines[0] == Header(nrOfFields, fieldSize)
    requires forall i :: 1 <= i < |lines| ==> lines[i] == RowLine(field[i - 1], |field[0]|)
    ensures lines == Encode(field, nrOfFields, fieldSize)
  {
  }

  /** The path written to: the suffix is appended whatever the name already ends with. */
  function FileName(fileName: string): (path: string)
    ensures |path| == |fileName| + 5 && path[..|fileName|] == fileName && path[|fileName|..] == ".jgol"
  {
    fileName + "." + FileSuffix
  }

  /** The writer, statement by statement: the header, then one letter per cell, row by row. */
  method WriteToFile(fileName: string, field: seq<seq<FieldValue>>, nrOfFields: int, fieldSize: int)
    returns (path: string, lines: seq<string>)
    requires RowsCover(field)
    ensures lines == Encode(field, nrOfFields, fieldSize)
    ensures path == FileName(fileName)
  {
    var sbFirstLine := WriteHeader(nrOfFields, fieldSize);
    lines := [sbFirstLine];
    ghost var header := sbFirstLine;
    var width := if |field| == 0 then 0 else |field[0]|;
    var k := 0;
    while k < |field|
      invariant 0 <= k <= |field|
      invariant |lines| == k + 1 && lines[0] == header
      invariant forall i :: 1 <= i <= k ==> lines[i] == RowLine(field[i - 1], width)
    {
      var sb := WriteRow(field[k], width);
      lines := lines + [sb];
      k := k + 1;
    }
    EncodeByLines(field, nrOfFields, fieldSize, lines);
    path := fileName + "." + FileSuffix;
  }

  /** The writer's first line: name, count and size appended with separators between them. */
  method WriteHeader(nrOfFields: int, fieldSize: int) returns (sbFirstLine: string)
    ensures sbFirstLine == Header(nrOfFields, fieldSize)
  {
    sbFirstLine := DataName + [DataSeparator] + IntToString(nrOfFields) + [DataSeparator] + IntToString(fieldSize);
  }

  /** One row of the writer: a letter per cell for the first `width` cells. */
  method WriteRow(aField: seq<FieldValue>, width: nat) returns (sb: string)
    requires width <= |aField|
    ensures sb == RowLine(aField, width)
  {
    sb := "";
    var j := 0;
    while j < width
      invariant 0 <= j <= width
      invariant sb == RowLine(aField, j)
    {
      sb := sb + (if aField[j] == ACTIVE then "O" else "X");
      j := j + 1;
    }
  }

  /** A header that does not split into exactly three fields is rejected. */
  lemma DecodeRejectsArity(allLines: seq<string>)
    requires |allLines| > 0 && |JavaSplit(allLines[0], DataSeparator)| != 3
    ensures Decode(allLines) == Err(HeaderUnknown)
  {
  }

  /** A header count or size that is not a 32-bit decimal is rejected. */
  lemma DecodeRejectsNumber(allLines: seq<string>)
    requires |allLines| > 0
    requires var p := JavaSplit(allLines[0], DataSeparator); |p| == 3 && (ParseInt(p[1]).None? || ParseInt(p[2]).None?)
    ensures Decode(allLines) == Err(NumberFormat)
  {
  }

  /** A well-formed header with a name other than "jgol" is rejected. */
  lemma DecodeRejectsName(allLines: seq<string>)
    requires |allLines| > 0
    requires var p := JavaSplit(allLines[0], DataSeparator);
      |p| == 3 && ParseInt(p[1]).Some? && ParseInt(p[2]).Some? && p[0] != DataName
    ensures Decode(allLines) == Err(HeaderNameUnknown)
  {
  }

  /** An empty file, or a valid header with a negative count, is corrupt. */
  lemma DecodeRejectsCorrupt(allLines: seq<string>)
    requires |allLines| == 0 || (HeaderOf(allLines).Ok? && HeaderOf(allLines).value.1 < 0)
    ensures Decode(allLines) == Err(HeaderCorrupt)
  {
  }

  /** A valid header with a non-negative count and a cell size below 2 is rejected. */
  lemma DecodeRejectsSmallSize(allLines: seq<string>)
    requires HeaderOf(allLines).Ok? && HeaderOf(allLines).value.1 >= 0 && HeaderOf(allLines).value.2 < MinFieldSize
    ensures Decode(allLines) == Err(FieldSizeTooSmall)
  {
  }

  /**
   * Exactly the files with a header "jgol;n;size" (n >= 0, size >= 2) and at
   * most n rows of at most n pieces each are read successfully.
   */
  lemma DecodeAccepts(allLines: seq<string>)
    ensures Decode(allLines).Ok? <==>
      |allLines| > 0 &&
      var p := JavaSplit(allLines[0], DataSeparator);
      |p| == 3 && p[0] == DataName && ParseInt(p[1]).Some? && ParseInt(p[2]).Some? &&
      ParseInt(p[1]).value >= 0 && ParseInt(p[2]).value >= MinFieldSize &&
      |allLines| - 1 <= ParseInt(p[1]).value &&
      forall i :: 1 <= i < |allLines| ==> |SplitChars(allLines[i])| <= ParseInt(p[1]).value
  {
    if |allLines| > 0 {
      var rows := allLines[1..];
      assert forall i :: 1 <= i < |allLines| ==> allLines[i] == rows[i - 1];
      assert forall i :: 0 <= i < |rows| ==> rows[i] == allLines[i + 1];
    }
  }

  /**
   * A successful read fills entry (i, j) from character j of row i: 'O' is
   * ACTIVE, any other character INACTIVE (an empty row sets column 0 to
   * INACTIVE), and an entry no row reaches stays null.
   */
  lemma DecodeContents(allLines: seq<string>, i: int, j: int)
    requires Decode(allLines).Ok?
    requires 0 <= i < Decode(allLines).value.nrOfFields && 0 <= j < Decode(allLines).value.nrOfFields
    ensures var v := Decode(allLines).value.values[i][j];
      (v.Some? <==> i + 1 < |allLines| && j < |SplitChars(allLines[i + 1])|) &&
      (v == Some(ACTIVE) <==> i + 1 < |allLines| && j < |allLines[i + 1]| && allLines[i + 1][j] == 'O')
  {
    var rows := allLines[1..];
    assert Decode(allLines).value.values[i][j] == CellAt(rows, i, j);
    if i < |rows| {
      assert rows[i] == allLines[i + 1];
      var pieces := SplitChars(rows[i]);
      if rows[i] != "" && j < |rows[i]| {
        assert pieces[j] == [rows[i][j]];
        assert pieces[j] == "O" <==> rows[i][j] == 'O';
      }
    }
  }

  /**
   * The writer's lines: the header "jgol;n;size", then for each row one
   * character per column of the first row, the cell's own letter ('O' or 'X').
   */
  lemma EncodeLines(field: seq<seq<FieldValue>>, nrOfFields: int, fieldSize: int)
    requires RowsCover(field)
    ensures var lines := Encode(field, nrOfFields, fieldSize);
      lines[0] == "jgol;" + IntToString(nrOfFields) + ";" + IntToString(fieldSize) &&
      (forall i :: 1 <= i < |lines| ==> |lines[i]| == |field[0]|) &&
      (forall i, j :: 1 <= i < |lines| && 0 <= j < |field[0]| ==> [lines[i][j]] == field[i - 1][j].Value())
  {
    var lines := Encode(field, nrOfFields, fieldSize);
    assert DataName + [DataSeparator] == "jgol;";
    forall i, j | 1 <= i < |lines| && 0 <= j < |field[0]|
      ensures [lines[i][j]] == field[i - 1][j].Value()
    {
      assert lines[i] == RowLine(field[i - 1], |field[0]|);
    }
  }

  /** The header the writer produces for 32-bit n and size reads back as ("jgol", n, size). */
  lemma HeaderRoundTrip(nrOfFields: int, fieldSize: int)
    requires MinInt <= nrOfFields <= MaxInt && MinInt <= fieldSize <= MaxInt
    ensures ParseHeader(Header(nrOfFields, fieldSize)) == Ok((DataName, nrOfFields, fieldSize))
  {
    ParseIntToString(nrOfFields);
    ParseIntToString(fieldSize);
  }

  /** Row i of a written n-by-n grid reads back as n pieces, piece j being cell (i, j). */
  lemma EncodedCell(field: seq<seq<FieldValue>>, n: int, fieldSize: int, i: int, j: int)
    requires Life.IsSquare(field, n) && 0 <= i < n && 0 <= j < n
    ensures RowsCover(field)
    ensures |SplitChars(Encode(field, n, fieldSize)[1..][i])| == n
    ensures CellAt(Encode(field, n, fieldSize)[1..], i, j) == Some(field[i][j])
  {
    var rows := Encode(field, n, fieldSize)[1..];
    assert rows[i] == RowLine(field[i], n);
    assert SplitChars(rows[i])[j] == [rows[i][j]];
  }

  /** The rows of a written n-by-n grid fill the n-by-n array with every cell's value. */
  lemma EncodedValues(field: seq<seq<FieldValue>>, n: int, fieldSize: int)
    requires Life.IsSquare(field, n)
    ensures RowsCover(field)
    ensures DecodeValues(Encode(field, n, fieldSize)[1..], n) ==
      Ok(seq(n, i requires 0 <= i < n => seq(n, j requires 0 <= j < n => Some(field[i][j]))))
  {
    var rows := Encode(field, n, fieldSize)[1..];
    var target := seq(n, i requires 0 <= i < n => seq(n, j requires 0 <= j < n => Some(field[i][j])));
    var grid := seq(n, i => seq(n, j => CellAt(rows, i, j)));
    forall i | 0 <= i < n
      ensures |SplitChars(rows[i])| <= n && grid[i] == target[i]
    {
      forall j | 0 <= j < n
        ensures grid[i][j] == target[i][j]
      {
        EncodedCell(field, n, fieldSize, i, j);
      }
      if n > 0 {
        EncodedCell(field, n, fieldSize, i, 0);
      }
    }
    assert !Overflows(rows, n);
    assert grid == target;
  }

  /**
   * Writing an n-by-n grid and reading it back gives name "jgol", the same
   * count and size, and every cell's value.
   */
  lemma DecodeEncode(field: seq<seq<FieldValue>>, n: int, fieldSize: int)
    requires Life.IsSquare(field, n) && n <= MaxInt && MinFieldSize <= fieldSize <= MaxInt
    ensures RowsCover(field)
    ensures Decode(Encode(field, n, fieldSize)) ==
      Ok(FileData(DataName, n, fieldSize, seq(n, i requires 0 <= i < n => seq(n, j requires 0 <= j < n => Some(field[i][j])))))
  {
    HeaderRoundTrip(n, fieldSize);
    EncodedValues(field, n, fieldSize);
  }

  /** The written header and the same header with a separator appended split alike. */
  lemma HeaderTrailingSeparator(nrOfFields: int, fieldSize: int)
    ensures JavaSplit(Header(nrOfFields, fieldSize) + [DataSeparator], DataSeparator) ==
      JavaSplit(Header(nrOfFields, fieldSize), DataSeparator)
  {
    var a, b, c := DataName, IntToString(nrOfFields), IntToString(fieldSize);
    assert DataSeparator !in a;
    NoSepInIntToString(nrOfFields, DataSeparator);
    NoSepInIntToString(fieldSize, DataSeparator);
    SplitThreeTrailing(a, b, c, DataSeparator);
    SplitThree(a, b, c, DataSeparator);
  }

  /** A separator after the size is dropped by the split, so the header still reads the same. */
  lemma DecodeIgnoresTrailingSeparator(nrOfFields: int, fieldSize: int, rows: seq<string>)
    ensures Decode([Header(nrOfFields, fieldSize) + [DataSeparator]] + rows) == Decode([Header(nrOfFields, fieldSize)] + rows)
  {
    var withSep := [Header(nrOfFields, fieldSize) + [DataSeparator]] + rows;
    var plain := [Header(nrOfFields, fieldSize)] + rows;
    HeaderTrailingSeparator(nrOfFields, fieldSize);
    assert HeaderOf(withSep) == HeaderOf(plain);
    assert withSep[1..] == rows == plain[1..];
  }

  /** The header text of the small examples below. */
  lemma SmallHeaders()
    ensures Header(2, 10) == "jgol;2;10" && Header(1, 10) == "jgol;1;10"
  {
    assert IntToString(10) == NatToString(1) + [DigitChar(0)];
  }

  /** The rows of the small example below fill a 2-by-2 array. */
  lemma ExampleRows()
    ensures DecodeValues(["O", ""], 2) == Ok([[Some(ACTIVE), None], [Some(INACTIVE), None]])
  {
    var rows := ["O", ""];
    assert SplitChars("O") == ["O"];
    assert !Overflows(rows, 2);
    assert CellAt(rows, 0, 0) == Some(ACTIVE) && CellAt(rows, 0, 1) == None;
    assert CellAt(rows, 1, 0) == Some(INACTIVE) && CellAt(rows, 1, 1) == None;
    var grid := seq(2, i => seq(2, j => CellAt(rows, i, j)));
    assert grid[0] == [Some(ACTIVE), None];
    assert grid[1] == [Some(INACTIVE), None];
    assert grid == [[Some(ACTIVE), None], [Some(INACTIVE), None]];
  }

  /** A small file: row 0 sets one live cell, the empty row 1 sets column 0 dead, the rest stays null. */
  lemma DecodeExample()
    ensures Decode(["jgol;2;10", "O", ""]) == Ok(FileData("jgol", 2, 10, [[Some(ACTIVE), None], [Some(INACTIVE), None]]))
  {
    var lines := ["jgol;2;10", "O", ""];
    SmallHeaders();
    HeaderRoundTrip(2, 10);
    assert HeaderOf(lines) == Ok(("jgol", 2, 10));
    assert lines[1..] == ["O", ""];
    ExampleRows();
  }

  /** A row longer than the count does not fit the array. */
  lemma DecodeRowTooLong()
    ensures Decode(["jgol;1;10", "OO"]) == Err(ArrayIndexOutOfBounds)
  {
    var lines := ["jgol;1;10", "OO"];
    SmallHeaders();
    HeaderRoundTrip(1, 10);
    assert HeaderOf(lines) == Ok(("jgol", 1, 10));
    var rows := lines[1..];
    assert rows == ["OO"];
    assert |SplitChars(rows[0])| == 2;
    assert Overflows(rows, 1);
  }
}
