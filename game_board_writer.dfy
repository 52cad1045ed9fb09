/**
 * The board writer (src/gtf/puzzle/sudoku/io/GameBoardWriter.java): the
 * zone sizes on the first line, then one line per board row with the
 * cells' values separated by single spaces. The output stream is the
 * text printed so far.
 */
module GameBoardWriters {
  import opened Wrappers
  import opened JavaPlatform
  import opened SudokuCellAddresses
  import opened SudokuTopologies
  import opened SudokuBoards
  import opened ColourConstraints
  import opened GameBoardReaders

  // ---------------------------------------------------------- the spec

  /** getPrintableValue: an empty cell is "0", any other cell its decimal value. */
  function PrintableValue(v: Option<int>): string
  {
    if v.None? then "0" else IntToString(v.value)
  }

  /** The value the reader parses back from a printed cell. */
  function Printed(v: Option<int>): int
  {
    if v.None? then 0 else v.value
  }

  /** The first line: the zone height and the zone width. */
  function Header(hsize: Int32, wsize: Int32): string
  {
    IntToString(hsize) + " " + IntToString(wsize)
  }

  /** What the column loop of write has printed after `n` columns of row `row`. */
  function RowText(colours: Colours<CellAddress, int>, width: Int32, row: Int32, n: nat): string
    requires n <= width
    decreases n
  {
    if n == 0 then ""
    else
      RowText(colours, width, row, n - 1) + PrintableValue(CellValue(colours, width, row, (n - 1) as Int32))
      + (if n - 1 < width - 1 then " " else "")
  }

  /** The lines of the first `n` board rows. */
  function RowLines(colours: Colours<CellAddress, int>, width: Int32, n: nat): seq<string>
    requires n <= width
  {
    seq(n, r requires 0 <= r < n => RowText(colours, width, r as Int32, width as nat))
  }

  /** Everything write prints for a board with these zone sizes and colours. */
  function BoardText(hsize: Int32, wsize: Int32, colours: Colours<CellAddress, int>): string
    requires hsize > 0 && wsize > 0 && IsInt32(hsize * wsize)
  {
    var width: Int32 := hsize * wsize;
    Terminated([Header(hsize, wsize)] + RowLines(colours, width, width as nat))
  }

  // --------------------------------------------------- the implementation

  /**
   * write: the header line, then for each row its values, a space after
   * every column but the last, and a newline.
   */
  method Write(board: SudokuBoard) returns (text: string)
    requires board.Valid()
    ensures text == BoardText(board.topology.hsize, board.topology.wsize, board.graph.colours)
  {
    var hsize := board.topology.ZoneHeight();
    var wsize := board.topology.ZoneWidth();
    var width := board.topology.Width();
    text := IntToString(hsize) + " " + IntToString(wsize) + "\n";
    var row: Int32 := 0;
    assert text == Terminated([Header(hsize, wsize)] + RowLines(board.graph.colours, width, 0));
    while row < width
      invariant 0 <= row <= width
      invariant text == Terminated([Header(hsize, wsize)] + RowLines(board.graph.colours, width, row as nat))
    {
      var line := PrintRow(board, row);
      PrintedSnoc(Header(hsize, wsize), board.graph.colours, width, row as nat);
      text := text + line + "\n";
      row := row + 1;
    }
  }

  /** Printing row `n` appends its line and a newline to what was printed before it. */
  lemma PrintedSnoc(header: string, colours: Colours<CellAddress, int>, width: Int32, n: nat)
    requires n < width
    ensures Terminated([header] + RowLines(colours, width, n + 1))
            == Terminated([header] + RowLines(colours, width, n)) + RowText(colours, width, n as Int32, width as nat) + "\n"
  {
    var printed := [header] + RowLines(colours, width, n);
    var line := RowText(colours, width, n as Int32, width as nat);
    TerminatedSnoc(printed, line);
    assert RowLines(colours, width, n + 1) == RowLines(colours, width, n) + [line];
    assert printed + [line] == [header] + RowLines(colours, width, n + 1);
  }

  /** The column loop of write for one row, up to the println that ends it. */
  method PrintRow(board: SudokuBoard, row: Int32) returns (line: string)
    requires board.Valid() && 0 <= row < board.topology.Width()
    ensures line == RowText(board.graph.colours, board.topology.Width(), row, board.topology.Width() as nat)
  {
    var width := board.topology.Width();
    line := "";
    var col: Int32 := 0;
    while col < width
      invariant 0 <= col <= width
      invariant line == RowText(board.graph.colours, width, row, col as nat)
    {
      ValueAtInBoard(board.graph.colours, width, row, col);
      var value := board.GetValue(row, col);
      line := line + PrintableValue(value.value);
      if col < width - 1 {
        line := line + " ";
      }
      col := col + 1;
    }
  }

  // -------------------------------------------------- properties of the spec

  /** A printed cell is one token, and parsing it gives the cell's value, 0 for an empty cell. */
  lemma PrintableValueParses(v: Option<int>)
    requires v.Some? ==> IsInt32(v.value)
    ensures IsToken(PrintableValue(v)) && NoNewline(PrintableValue(v))
    ensures ParseInt(PrintableValue(v)) == Some(Printed(v))
  {
    IntToStringIsToken(Printed(v));
    ParseIntOfIntToString(Printed(v));
    assert PrintableValue(v) == IntToString(Printed(v));
  }

  /** A cell value the round trip keeps: empty, or a positive Java int. */
  predicate Positive(v: Option<int>)
  {
    v.Some? ==> 0 < v.value <= INT_MAX
  }

  /** Every cell of the board is empty or holds a positive Java int. */
  predicate AllPositive(colours: Colours<CellAddress, int>, width: Int32)
  {
    forall i: Int32, j: Int32 :: 0 <= i < width && 0 <= j < width ==> Positive(CellValue(colours, width, i, j))
  }

  /** The printed cells of the first `n` columns of a row. */
  function RowCells(colours: Colours<CellAddress, int>, width: Int32, row: Int32, n: nat): seq<string>
    requires n <= width
  {
    seq(n, j requires 0 <= j < n => PrintableValue(CellValue(colours, width, row, j as Int32)))
  }

  /** One more column adds its printed cell. */
  lemma RowCellsSnoc(colours: Colours<CellAddress, int>, width: Int32, row: Int32, n: nat)
    requires 0 < n <= width
    ensures RowCells(colours, width, row, n)
            == RowCells(colours, width, row, n - 1) + [PrintableValue(CellValue(colours, width, row, (n - 1) as Int32))]
  {
  }

  /** A row line is its printed cells joined by single spaces, with no trailing space. */
  lemma {:induction false} RowTextJoined(colours: Colours<CellAddress, int>, width: Int32, row: Int32, n: nat)
    requires 0 < n <= width
    ensures RowText(colours, width, row, n) == JoinSpaced(RowCells(colours, width, row, n)) + (if n < width then " " else "")
    decreases n
  {
    var cell := PrintableValue(CellValue(colours, width, row, (n - 1) as Int32));
    RowCellsSnoc(colours, width, row, n);
    if n > 1 {
      var before := RowCells(colours, width, row, n - 1);
      RowTextJoined(colours, width, row, n - 1);
      JoinSpacedSnoc(before, cell);
    }
  }

  /** A row line holds no newline. */
  lemma {:induction false} RowTextNoNewline(colours: Colours<CellAddress, int>, width: Int32, row: Int32, n: nat)
    requires n <= width
    ensures NoNewline(RowText(colours, width, row, n))
    decreases n
  {
    if n > 0 {
      RowTextNoNewline(colours, width, row, n - 1);
      IntToStringIsToken(Printed(CellValue(colours, width, row, (n - 1) as Int32)));
    }
  }

  /** Splitting a row line gives back its printed cells, when every cell is a Java int. */
  lemma RowTokens(colours: Colours<CellAddress, int>, width: Int32, row: Int32)
    requires width > 0 && AllPositive(colours, width) && 0 <= row < width
    ensures Tokens(RowText(colours, width, row, width as nat)) == RowCells(colours, width, row, width as nat)
  {
    var cells := RowCells(colours, width, row, width as nat);
    RowTextJoined(colours, width, row, width as nat);
    assert JoinSpaced(cells) + "" == JoinSpaced(cells);
    forall j | 0 <= j < |cells| ensures IsToken(cells[j]) {
      PrintableValueParses(CellValue(colours, width, row, j as Int32));
    }
    TokensOfJoinSpaced(cells);
  }

  /** The values the reader parses back from the printed cells of row `row`. */
  function RowInts(colours: Colours<CellAddress, int>, width: Int32, row: Int32): seq<int>
    requires width >= 0
  {
    seq(width, j requires 0 <= j < width => Printed(CellValue(colours, width, row, j as Int32)))
  }

  /** The values the reader parses back from every printed row. */
  function GridInts(colours: Colours<CellAddress, int>, width: Int32): seq<seq<int>>
    requires width >= 0
  {
    seq(width, i requires 0 <= i < width => RowInts(colours, width, i as Int32))
  }

  /** Reading a printed row gives the values of its cells. */
  lemma ReadRowLine(colours: Colours<CellAddress, int>, width: Int32, row: Int32)
    requires width > 0 && AllPositive(colours, width) && 0 <= row < width
    ensures RowValues(Tokens(RowText(colours, width, row, width as nat)), width, row).Ok?
    ensures RowValues(Tokens(RowText(colours, width, row, width as nat)), width, row).value == RowInts(colours, width, row)
  {
    var cells := RowCells(colours, width, row, width as nat);
    var values := RowInts(colours, width, row);
    RowTokens(colours, width, row);
    forall k | 0 <= k < |cells| ensures ParseInt(cells[k]) == Some(values[k]) {
      assert Positive(CellValue(colours, width, row, k as Int32));
      PrintableValueParses(CellValue(colours, width, row, k as Int32));
    }
    ParseAll(cells, values, row, width as nat);
    assert values[..width] == values;
  }

  /** Reading all printed rows gives the board's grid of values. */
  lemma ReadGrid(colours: Colours<CellAddress, int>, width: Int32)
    requires width > 0 && AllPositive(colours, width)
    ensures Grid(RowLines(colours, width, width as nat), width).Ok?
    ensures Grid(RowLines(colours, width, width as nat), width).value == GridInts(colours, width)
  {
    var body := RowLines(colours, width, width as nat);
    var grid := GridInts(colours, width);
    forall k: Int32 | 0 <= k < |body|
      ensures RowValues(Tokens(body[k]), width, k).Ok? && RowValues(Tokens(body[k]), width, k).value == grid[k]
    {
      ReadRowLine(colours, width, k);
    }
    GridAll(body, grid, width, width as nat);
    assert grid[..width] == grid;
  }

  /** The header line reads back as the zone sizes. */
  lemma ReadHeader(hsize: Int32, wsize: Int32)
    requires hsize > 0 && wsize > 0 && IsInt32(hsize * hsize * wsize * wsize)
    ensures BoardSpec(Some(Header(hsize, wsize))) == Ok((hsize, wsize))
  {
    HeaderTokens(hsize, wsize);
    ParseIntOfIntToString(hsize);
    ParseIntOfIntToString(wsize);
    assert DimensionSpec(Some(Header(hsize, wsize))) == Ok((hsize, wsize));
  }

  /** The header line splits into the two printed sizes. */
  lemma HeaderTokens(hsize: Int32, wsize: Int32)
    ensures Tokens(Trim(Header(hsize, wsize))) == [IntToString(hsize), IntToString(wsize)]
  {
    var a, b := IntToString(hsize), IntToString(wsize);
    var header := Header(hsize, wsize);
    assert header[|header| - 1] == b[|b| - 1];
    assert Trim(header) == header;
    assert header == JoinSpaced([a, b]);
    IntToStringIsToken(hsize);
    IntToStringIsToken(wsize);
    TokensOfJoinSpaced([a, b]);
  }

  /** The lines write prints: the header, then one line per row. */
  lemma WrittenLines(hsize: Int32, wsize: Int32, colours: Colours<CellAddress, int>)
    requires hsize > 0 && wsize > 0 && IsInt32(hsize * wsize)
    ensures Lines(BoardText(hsize, wsize, colours)) == [Header(hsize, wsize)] + RowLines(colours, hsize * wsize, hsize * wsize)
  {
    var width: Int32 := hsize * wsize;
    HeaderNoNewline(hsize, wsize);
    RowLinesPlain(colours, width, width as nat);
    PlainCons(Header(hsize, wsize), RowLines(colours, width, width as nat));
    LinesOfTerminated([Header(hsize, wsize)] + RowLines(colours, width, width as nat));
  }

  lemma HeaderNoNewline(hsize: Int32, wsize: Int32)
    ensures NoNewline(Header(hsize, wsize))
  {
    IntToStringIsToken(hsize);
    IntToStringIsToken(wsize);
  }

  /** No row line holds a newline. */
  lemma RowLinesPlain(colours: Colours<CellAddress, int>, width: Int32, n: nat)
    requires n <= width
    ensures forall i :: 0 <= i < n ==> NoNewline(RowLines(colours, width, n)[i])
  {
    forall i | 0 <= i < n ensures NoNewline(RowLines(colours, width, n)[i]) {
      RowTextNoNewline(colours, width, i as Int32, width as nat);
    }
  }

  lemma PlainCons(line: string, ls: seq<string>)
    requires NoNewline(line) && forall i :: 0 <= i < |ls| ==> NoNewline(ls[i])
    ensures forall i :: 0 <= i < |[line] + ls| ==> NoNewline(([line] + ls)[i])
  {
    forall i | 0 <= i < |[line] + ls| ensures NoNewline(([line] + ls)[i]) {
      if i > 0 {
        assert ([line] + ls)[i] == ls[i - 1];
      }
    }
  }

  /**
   * The round trip: reading what write printed for a board whose cells are
   * empty or positive gives back the zone sizes and every cell.
   */
  lemma ReadWritten(hsize: Int32, wsize: Int32, colours: Colours<CellAddress, int>)
    requires hsize > 0 && wsize > 0 && IsInt32(hsize * hsize * wsize * wsize) && IsInt32(hsize * wsize)
    requires AllPositive(colours, hsize * wsize)
    ensures ReadSpec(Lines(BoardText(hsize, wsize, colours))).Ok?
    ensures ReadSpec(Lines(BoardText(hsize, wsize, colours))).value.hsize == hsize
    ensures ReadSpec(Lines(BoardText(hsize, wsize, colours))).value.wsize == wsize
    ensures forall i: Int32, j: Int32 :: 0 <= i < hsize * wsize && 0 <= j < hsize * wsize ==>
      Stored(ReadSpec(Lines(BoardText(hsize, wsize, colours))).value.grid[i][j]) == CellValue(colours, hsize * wsize, i, j)
  {
    SudokuTopologiesWidthFits(hsize, wsize);
    var width: Int32 := hsize * wsize;
    var lines := [Header(hsize, wsize)] + RowLines(colours, width, width as nat);
    WrittenLines(hsize, wsize, colours);
    ReadHeader(hsize, wsize);
    assert lines[0] == Header(hsize, wsize);
    assert lines[1..] == RowLines(colours, width, width as nat);
    ReadGrid(colours, width);
    assert Grid(lines[1..], width).Ok?;
    ReadSpecOk(lines, hsize, wsize, width);
    forall i: Int32, j: Int32 | 0 <= i < width && 0 <= j < width
      ensures Stored(GridInts(colours, width)[i][j]) == CellValue(colours, width, i, j)
    {
      assert GridInts(colours, width)[i][j] == Printed(CellValue(colours, width, i, j));
      assert Positive(CellValue(colours, width, i, j));
    }
  }
}
