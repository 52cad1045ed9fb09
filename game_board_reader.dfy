/**
 * The board reader (src/gtf/puzzle/sudoku/io/GameBoardReader.java): a
 * dimension line, then one line of whitespace-separated values per board
 * row. The input stream is the sequence of lines readLine hands out.
 */
module GameBoardReaders {
  import opened Wrappers
  import opened JavaPlatform
  import opened SudokuCellAddresses
  import opened SudokuBoards
  import opened ColourConstraints
  import opened GameBoardReaderExceptions

  /**
   * How read ends when it does not return a board: the checked exception,
   * or zone sizes whose node count does not fit in a Java int.
   */
  datatype ReadError =
    | ReaderException(e: GameBoardReaderException)
    | BoardTooLarge(hsize: Int32, wsize: Int32)

  /** What a successful read determines: the zone sizes and the parsed value grid. */
  datatype Parsed = Parsed(hsize: Int32, wsize: Int32, grid: seq<seq<Int32>>)

  function Min(a: int, b: int): int { if a < b then a else b }

  /** What a parsed value does to its cell: a positive value is set, any other leaves it empty. */
  function Stored(v: int): Option<int> { if v > 0 then Some(v) else None }

  // ---------------------------------------------------------- the spec

  /**
   * createBoardByDimensionSpec up to the board constructor: the tokens of
   * the trimmed first line give one size (square zones) or two (height,
   * width).
   */
  function DimensionSpec(line: Option<string>): Result<(Int32, Int32), ReadError>
  {
    if line.None? then Err(ReaderException(WithMessage("Couldn't read side")))
    else
      var tokens := Tokens(Trim(line.value));
      if |tokens| == 1 then
        match ParseInt(tokens[0])
        case None => Err(ReaderException(WithMessage("Bad number in dimension spec")))
        case Some(size) => Ok((size, size))
      else if |tokens| == 2 then
        match ParseInt(tokens[0])
        case None => Err(ReaderException(WithMessage("Bad number in dimension spec")))
        case Some(hsize) =>
          match ParseInt(tokens[1])
          case None => Err(ReaderException(WithMessage("Bad number in dimension spec")))
          case Some(wsize) => Ok((hsize, wsize))
      else Err(ReaderException(WithMessage("Illegal number of values in dimension spec")))
  }

  /** The board constructor's refusals, rethrown with their message. */
  function ZoneCheck(hsize: Int32, wsize: Int32): Result<(Int32, Int32), ReadError>
  {
    if wsize <= 0 then Err(ReaderException(WithMessage("bad zone width " + IntToString(wsize))))
    else if hsize <= 0 then Err(ReaderException(WithMessage("bad zone height " + IntToString(hsize))))
    else if !IsInt32(hsize * hsize * wsize * wsize) then Err(BoardTooLarge(hsize, wsize))
    else Ok((hsize, wsize))
  }

  function BoardSpec(line: Option<string>): Result<(Int32, Int32), ReadError>
  {
    match DimensionSpec(line)
    case Err(e) => Err(e)
    case Ok(sizes) => ZoneCheck(sizes.0, sizes.1)
  }

  /** The values of the first `c` tokens of row `row`; the first token that is not an int is a bad token. */
  function ParseTokens(tokens: seq<string>, row: Int32, c: nat): (r: Result<seq<Int32>, ReadError>)
    requires c <= |tokens| && c <= INT_MAX
    ensures r.Ok? ==> |r.value| == c
    decreases c
  {
    if c == 0 then Ok([])
    else
      match ParseTokens(tokens, row, c - 1)
      case Err(e) => Err(e)
      case Ok(values) =>
        match ParseInt(tokens[c - 1])
        case None => Err(ReaderException(WithToken("Bad token", row, c - 1, tokens[c - 1])))
        case Some(v) => Ok(values + [v])
  }

  /** One row: the first `width` tokens parsed, or too few of them. */
  function RowValues(tokens: seq<string>, width: Int32, row: Int32): (r: Result<seq<Int32>, ReadError>)
    requires width >= 0
    ensures r.Ok? ==> |r.value| == width
  {
    var n := Min(width, |tokens|);
    match ParseTokens(tokens, row, n)
    case Err(e) => Err(e)
    case Ok(values) =>
      if n < width then Err(ReaderException(WithRow("Not enough columns in row", row))) else Ok(values)
  }

  /** The first `n` rows of the board from the lines after the dimension line. */
  function GridRows(body: seq<string>, width: Int32, n: nat): (r: Result<seq<seq<Int32>>, ReadError>)
    requires n <= |body| && n <= width
    ensures r.Ok? ==> |r.value| == n && forall i :: 0 <= i < n ==> |r.value[i]| == width
    decreases n
  {
    if n == 0 then Ok([])
    else
      match GridRows(body, width, n - 1)
      case Err(e) => Err(e)
      case Ok(rows) =>
        match RowValues(Tokens(body[n - 1]), width, n - 1)
        case Err(e) => Err(e)
        case Ok(values) => Ok(rows + [values])
  }

  /** All `width` rows, or too few lines. */
  function Grid(body: seq<string>, width: Int32): (r: Result<seq<seq<Int32>>, ReadError>)
    requires width >= 0
    ensures r.Ok? ==> |r.value| == width && forall i :: 0 <= i < width ==> |r.value[i]| == width
  {
    var n := Min(width, |body|);
    match GridRows(body, width, n)
    case Err(e) => Err(e)
    case Ok(rows) => if n < width then Err(ReaderException(WithRow("Not enough rows", n))) else Ok(rows)
  }

  /** What read makes of its input lines. */
  function ReadSpec(lines: seq<string>): Result<Parsed, ReadError>
  {
    match BoardSpec(if |lines| > 0 then Some(lines[0]) else None)
    case Err(e) => Err(e)
    case Ok(sizes) =>
      WidthFits(sizes.0, sizes.1);
      var width: Int32 := sizes.0 * sizes.1;
      match Grid(lines[1..], width)
      case Err(e) => Err(e)
      case Ok(grid) => Ok(Parsed(sizes.0, sizes.1, grid))
  }

  lemma WidthFits(hsize: Int32, wsize: Int32)
    ensures ZoneCheck(hsize, wsize).Ok? ==> hsize > 0 && wsize > 0 && 0 < hsize * wsize <= INT_MAX
  {
    if ZoneCheck(hsize, wsize).Ok? {
      SudokuTopologiesWidthFits(hsize, wsize);
    }
  }

  lemma SudokuTopologiesWidthFits(hsize: int, wsize: int)
    requires hsize > 0 && wsize > 0 && IsInt32(hsize * hsize * wsize * wsize)
    ensures 0 < hsize * wsize <= INT_MAX
  {
    var w := hsize * wsize;
    assert hsize * hsize * wsize * wsize == w * w;
    assert w <= w * w;
  }

  // --------------------------------------------------- the implementation

  /**
   * createBoardByDimensionSpec: a missing line, a bad token count or a
   * bad number is a reader exception; the board constructor's
   * IllegalArgumentException is rethrown with its message.
   */
  method CreateBoardByDimensionSpec(line: Option<string>) returns (r: Result<SudokuBoard, ReadError>)
    ensures r.Ok? <==> BoardSpec(line).Ok?
    ensures r.Err? ==> r.error == BoardSpec(line).error
    ensures r.Ok? ==> fresh(r.value) && fresh(r.value.graph) && r.value.Valid()
    ensures r.Ok? ==> (r.value.topology.hsize, r.value.topology.wsize) == BoardSpec(line).value
    ensures r.Ok? ==> forall row, col :: r.value.GetValue(row, col).Ok? ==> r.value.GetValue(row, col) == Ok(None)
  {
    if line.None? {
      return Err(ReaderException(WithMessage("Couldn't read side")));
    }
    var tokens := Tokens(Trim(line.value));
    var hsize: Int32, wsize: Int32;
    if |tokens| == 1 {
      var size := ParseInt(tokens[0]);
      if size.None? {
        return Err(ReaderException(WithMessage("Bad number in dimension spec")));
      }
      hsize, wsize := size.value, size.value;
    } else if |tokens| == 2 {
      var h := ParseInt(tokens[0]);
      if h.None? {
        return Err(ReaderException(WithMessage("Bad number in dimension spec")));
      }
      var w := ParseInt(tokens[1]);
      if w.None? {
        return Err(ReaderException(WithMessage("Bad number in dimension spec")));
      }
      hsize, wsize := h.value, w.value;
    } else {
      return Err(ReaderException(WithMessage("Illegal number of values in dimension spec")));
    }
    if hsize > 0 && wsize > 0 && !IsInt32(hsize * hsize * wsize * wsize) {
      return Err(BoardTooLarge(hsize, wsize));
    }
    var board := SudokuBoard.New(hsize, wsize);
    if board.Err? {
      return Err(ReaderException(WithMessage(board.error.message)));
    }
    return Ok(board.value);
  }

  /**
   * read: the board from the dimension line, then the value lines, one
   * row each, until `width` rows are read or the lines run out.
   */
  method Read(lines: seq<string>) returns (r: Result<SudokuBoard, ReadError>)
    ensures r.Ok? <==> ReadSpec(lines).Ok?
    ensures r.Err? ==> r.error == ReadSpec(lines).error
    ensures r.Ok? ==> fresh(r.value) && r.value.Valid()
    ensures r.Ok? ==> r.value.topology.hsize == ReadSpec(lines).value.hsize && r.value.topology.wsize == ReadSpec(lines).value.wsize
    ensures r.Ok? ==> forall i, j :: 0 <= i < r.value.topology.Width() && 0 <= j < r.value.topology.Width() ==>
      r.value.GetValue(i, j) == Ok(Stored(ReadSpec(lines).value.grid[i][j]))
  {
    var created := CreateBoardByDimensionSpec(if |lines| > 0 then Some(lines[0]) else None);
    if created.Err? {
      return Err(created.error);
    }
    var board := created.value;
    ghost var start := board.graph.colours;
    forall i: Int32, j: Int32 | 0 <= i < board.topology.Width() && 0 <= j < board.topology.Width()
      ensures CellValue(start, board.topology.Width(), i, j) == None
    {
      assert board.GetValue(i, j).Ok?;
      ValueAtInBoard(start, board.topology.Width(), i, j);
    }
    var grid := ReadRows(board, lines[1..]);
    if grid.Err? {
      return Err(grid.error);
    }
    forall i: Int32, j: Int32 | 0 <= i < board.topology.Width() && 0 <= j < board.topology.Width()
      ensures board.GetValue(i, j) == Ok(Stored(grid.value[i][j]))
    {
      ValueAtInBoard(board.graph.colours, board.topology.Width(), i, j);
      WriteRowsCell(start, board.topology.Width(), grid.value, i, j);
    }
    return Ok(board);
  }

  /** The loop of read over the value lines. */
  method ReadRows(board: SudokuBoard, body: seq<string>) returns (r: Result<seq<seq<Int32>>, ReadError>)
    requires board.Valid()
    modifies board.graph
    ensures board.Valid()
    ensures r == Grid(body, board.topology.Width())
    ensures r.Ok? ==> board.graph.colours == WriteRows(old(board.graph.colours), board.topology.Width(), r.value)
  {
    var width := board.topology.Width();
    var row: Int32 := 0;
    var rows: seq<seq<Int32>> := [];
    ghost var start := board.graph.colours;
    while row < width && row < |body|
      invariant 0 <= row <= width && row <= |body| && |rows| == row as int
      invariant board.Valid() && board.topology.Width() == width
      invariant GridRows(body, width, row) == Ok(rows)
      invariant board.graph.colours == WriteRows(start, width, rows)
    {
      var values := ReadRow(board, body[row], row);
      if values.Err? {
        BadRowGrid(body, width, row, rows);
        return Err(values.error);
      }
      GridStep(body, width, row, rows);
      WriteRowsSnoc(start, width, rows, values.value);
      rows := rows + [values.value];
      row := row + 1;
    }
    GridEnd(body, width, row, rows);
    if row < width {
      return Err(ReaderException(WithRow("Not enough rows", row)));
    }
    return Ok(rows);
  }

  /**
   * The inner loop of read for one line: up to `width` tokens, each parsed
   * and, when positive, set in row `row`. A token that is not an int
   * stops with a bad token; too few tokens stop with too few columns.
   */
  method ReadRow(board: SudokuBoard, line: string, row: Int32) returns (r: Result<seq<Int32>, ReadError>)
    requires board.Valid() && 0 <= row < board.topology.Width()
    modifies board.graph
    ensures board.Valid()
    ensures r == RowValues(Tokens(line), board.topology.Width(), row)
    ensures r.Ok? ==> board.graph.colours == WriteRow(old(board.graph.colours), board.topology.Width(), row, r.value)
  {
    r := ReadTokens(board, Tokens(line), row);
  }

  /** The loop of readRow over the tokens of one line. */
  method ReadTokens(board: SudokuBoard, tokens: seq<string>, row: Int32) returns (r: Result<seq<Int32>, ReadError>)
    requires board.Valid() && 0 <= row < board.topology.Width()
    modifies board.graph
    ensures board.Valid()
    ensures r == RowValues(tokens, board.topology.Width(), row)
    ensures r.Ok? ==> board.graph.colours == WriteRow(old(board.graph.colours), board.topology.Width(), row, r.value)
  {
    var width := board.topology.Width();
    var col: Int32 := 0;
    var values: seq<Int32> := [];
    ghost var start := board.graph.colours;
    while col < width && col < |tokens|
      invariant 0 <= col <= width && col <= |tokens| && |values| == col as int
      invariant board.Valid() && board.topology.Width() == width
      invariant ParseTokens(tokens, row, col) == Ok(values)
      invariant board.graph.colours == WriteRow(start, width, row, values)
    {
      var next := ReadCell(board, tokens, row, col, values, start);
      if next.None? {
        return Err(ReaderException(WithToken("Bad token", row, col, tokens[col])));
      }
      values := next.value;
      col := col + 1;
    }
    RowEnd(tokens, width, row, col, values);
    if col < width {
      return Err(ReaderException(WithRow("Not enough columns in row", row)));
    }
    return Ok(values);
  }

  /** One token of the inner loop of read: parsed and, when positive, stored. */
  method ReadCell(board: SudokuBoard, tokens: seq<string>, row: Int32, col: Int32, values: seq<Int32>,
                  ghost start: Colours<CellAddress, int>) returns (next: Option<seq<Int32>>)
    requires board.Valid() && 0 <= row < board.topology.Width()
    requires 0 <= col < board.topology.Width() && col < |tokens|
    requires ParseTokens(tokens, row, col) == Ok(values)
    requires board.graph.colours == WriteRow(start, board.topology.Width(), row, values)
    modifies board.graph
    ensures board.Valid()
    ensures next.None? ==> RowValues(tokens, board.topology.Width(), row)
                           == Err(ReaderException(WithToken("Bad token", row, col, tokens[col])))
    ensures next.Some? ==> ParseTokens(tokens, row, col + 1) == Ok(next.value)
                           && board.graph.colours == WriteRow(start, board.topology.Width(), row, next.value)
  {
    var width := board.topology.Width();
    var value := ParseInt(tokens[col]);
    if value.None? {
      BadTokenRow(tokens, width, row, col, values);
      return None;
    }
    StoreValue(board, row, col, value.value);
    ParseStep(tokens, row, col, values);
    WriteRowSnoc(start, width, row, values, value.value);
    return Some(values + [value.value as Int32]);
  }

  method StoreValue(board: SudokuBoard, row: Int32, col: Int32, value: int)
    requires board.Valid() && InBoard(board.topology.Width(), row, col)
    modifies board.graph
    ensures board.Valid()
    ensures board.graph.colours == if value > 0 then old(board.graph.colours)[CellAddress(board.topology.Width(), row, col) := Some(value)]
                                   else old(board.graph.colours)
  {
    if value > 0 {
      var stored := board.SetCell(row, col, Some(value));
      assert stored.Ok?;
    }
  }

  /** The colour map after the positive `values` are set, left to right, in row `row`. */
  function WriteRow(c: Colours<CellAddress, int>, width: Int32, row: Int32, values: seq<Int32>): Colours<CellAddress, int>
    requires |values| <= INT_MAX
    decreases |values|
  {
    if values == [] then c
    else
      var k := |values| - 1;
      var prev := WriteRow(c, width, row, values[..k]);
      if values[k] > 0 then prev[CellAddress(width, row, k as Int32) := Some(values[k] as int)] else prev
  }

  /** The colour map after the rows are written in order. */
  function WriteRows(c: Colours<CellAddress, int>, width: Int32, rows: seq<seq<Int32>>): Colours<CellAddress, int>
    requires |rows| <= INT_MAX && forall i :: 0 <= i < |rows| ==> |rows[i]| <= INT_MAX
    decreases |rows|
  {
    if rows == [] then c
    else
      var k := |rows| - 1;
      WriteRow(WriteRows(c, width, rows[..k]), width, k as Int32, rows[k])
  }

  /** The colour of a board cell. */
  function CellValue(colours: Colours<CellAddress, int>, width: Int32, i: Int32, j: Int32): Option<int>
  {
    ColourAt(colours, CellAddress(width, i, j))
  }

  /** getValue on a board cell is its colour. */
  lemma ValueAtInBoard(colours: Colours<CellAddress, int>, width: Int32, i: Int32, j: Int32)
    requires InBoard(width, i, j)
    ensures ValueAt(colours, width, i, j) == Ok(CellValue(colours, width, i, j))
  {
  }

  /** Writing a row changes exactly the cells of that row whose values are positive. */
  lemma {:induction false} WriteRowCell(c: Colours<CellAddress, int>, width: Int32, row: Int32, values: seq<Int32>,
                                         i: Int32, j: Int32)
    requires |values| <= INT_MAX
    ensures CellValue(WriteRow(c, width, row, values), width, i, j)
            == if i == row && 0 <= j < |values| && values[j] > 0 then Some(values[j] as int) else CellValue(c, width, i, j)
    decreases |values|
  {
    if values != [] {
      var k := |values| - 1;
      WriteRowCell(c, width, row, values[..k], i, j);
    }
  }

  /** Writing the rows in order sets exactly the cells whose values are positive. */
  lemma {:induction false} WriteRowsCell(c: Colours<CellAddress, int>, width: Int32, rows: seq<seq<Int32>>,
                                          i: Int32, j: Int32)
    requires |rows| <= INT_MAX && forall k :: 0 <= k < |rows| ==> |rows[k]| <= INT_MAX
    ensures CellValue(WriteRows(c, width, rows), width, i, j)
            == if 0 <= i < |rows| && 0 <= j < |rows[i]| && rows[i][j] > 0 then Some(rows[i][j] as int)
               else CellValue(c, width, i, j)
    decreases |rows|
  {
    if rows != [] {
      var k := |rows| - 1;
      WriteRowsCell(c, width, rows[..k], i, j);
      WriteRowCell(WriteRows(c, width, rows[..k]), width, k as Int32, rows[k], i, j);
    }
  }

  // -------------------------------------------------- properties of the spec

  /** A row that reads extends the grid read so far. */
  lemma GridStep(body: seq<string>, width: Int32, row: Int32, rows: seq<seq<Int32>>)
    requires 0 <= row < width && row < |body| && GridRows(body, width, row) == Ok(rows)
    requires RowValues(Tokens(body[row]), width, row).Ok?
    ensures GridRows(body, width, row + 1) == Ok(rows + [RowValues(Tokens(body[row]), width, row).value])
  {
  }

  /** A row that fails ends the read with its error. */
  lemma BadRowGrid(body: seq<string>, width: Int32, row: Int32, rows: seq<seq<Int32>>)
    requires 0 <= row < width && row < |body| && GridRows(body, width, row) == Ok(rows)
    requires RowValues(Tokens(body[row]), width, row).Err?
    ensures Grid(body, width) == Err(RowValues(Tokens(body[row]), width, row).error)
  {
    var e := RowValues(Tokens(body[row]), width, row).error;
    assert GridRows(body, width, row + 1) == Err(e);
    var n := Min(width, |body|);
    GridRowsErrPersists(body, width, row + 1, n);
    assert GridRows(body, width, n) == Err(e);
  }

  /** Where the line loop stops: too few lines, or a full grid. */
  lemma GridEnd(body: seq<string>, width: Int32, row: Int32, rows: seq<seq<Int32>>)
    requires 0 <= row <= width && row <= |body| && !(row < width && row < |body|)
    requires GridRows(body, width, row) == Ok(rows)
    ensures Grid(body, width) == if row < width then Err(ReaderException(WithRow("Not enough rows", row))) else Ok(rows)
  {
  }

  /** Writing one more row applies it after the rows before it. */
  lemma WriteRowsSnoc(c: Colours<CellAddress, int>, width: Int32, rows: seq<seq<Int32>>, values: seq<Int32>)
    requires |rows| < INT_MAX && |values| <= INT_MAX && forall i :: 0 <= i < |rows| ==> |rows[i]| <= INT_MAX
    ensures WriteRows(c, width, rows + [values]) == WriteRow(WriteRows(c, width, rows), width, |rows| as Int32, values)
  {
    assert (rows + [values])[..|rows|] == rows;
  }

  /** A token that is an int extends the parsed prefix of the row. */
  lemma ParseStep(tokens: seq<string>, row: Int32, col: Int32, values: seq<Int32>)
    requires 0 <= col < |tokens| && col < INT_MAX
    requires ParseTokens(tokens, row, col) == Ok(values) && ParseInt(tokens[col]).Some?
    ensures ParseTokens(tokens, row, col + 1) == Ok(values + [ParseInt(tokens[col]).value as Int32])
  {
  }

  /** Writing one more value sets its cell when it is positive. */
  lemma WriteRowSnoc(c: Colours<CellAddress, int>, width: Int32, row: Int32, values: seq<Int32>, v: Int32)
    requires |values| < INT_MAX
    ensures WriteRow(c, width, row, values + [v])
            == if v > 0 then WriteRow(c, width, row, values)[CellAddress(width, row, |values| as Int32) := Some(v as int)]
               else WriteRow(c, width, row, values)
  {
    assert (values + [v])[..|values|] == values;
  }

  /** A token that is not an int ends the row with a bad token. */
  lemma BadTokenRow(tokens: seq<string>, width: Int32, row: Int32, col: Int32, values: seq<Int32>)
    requires 0 <= col < width && col < |tokens| && ParseTokens(tokens, row, col) == Ok(values)
    requires ParseInt(tokens[col]).None?
    ensures RowValues(tokens, width, row) == Err(ReaderException(WithToken("Bad token", row, col, tokens[col])))
  {
    ParseTokensErrPersists(tokens, row, col + 1, Min(width, |tokens|));
  }

  /** Where the token loop stops: too few tokens, or a full row. */
  lemma RowEnd(tokens: seq<string>, width: Int32, row: Int32, col: Int32, values: seq<Int32>)
    requires 0 <= col <= width && col <= |tokens| && !(col < width && col < |tokens|)
    requires ParseTokens(tokens, row, col) == Ok(values)
    ensures RowValues(tokens, width, row)
            == if col < width then Err(ReaderException(WithRow("Not enough columns in row", row))) else Ok(values)
  {
  }

  lemma {:induction false} ParseTokensErrPersists(tokens: seq<string>, row: Int32, c: nat, n: nat)
    requires c <= n <= |tokens| && n <= INT_MAX && ParseTokens(tokens, row, c).Err?
    ensures ParseTokens(tokens, row, n) == ParseTokens(tokens, row, c)
    decreases n
  {
    if n > c {
      ParseTokensErrPersists(tokens, row, c, n - 1);
    }
  }

  lemma {:induction false} GridRowsErrPersists(body: seq<string>, width: Int32, k: nat, n: nat)
    requires k <= n <= |body| && n <= width && GridRows(body, width, k).Err?
    ensures GridRows(body, width, n) == GridRows(body, width, k)
    decreases n
  {
    if n > k {
      GridRowsErrPersists(body, width, k, n - 1);
    }
  }

  // ------------------------------------------------- what read ignores

  /** Parsing the first `c` tokens looks at nothing past them. */
  lemma {:induction false} ParseTokensPrefix(tokens: seq<string>, more: seq<string>, row: Int32, c: nat)
    requires c <= |tokens| && c <= INT_MAX
    ensures ParseTokens(tokens + more, row, c) == ParseTokens(tokens, row, c)
    decreases c
  {
    if c > 0 {
      ParseTokensPrefix(tokens, more, row, c - 1);
      assert (tokens + more)[c - 1] == tokens[c - 1];
    }
  }

  /** Tokens after the first `width` of a row are never looked at. */
  lemma ExtraTokensIgnored(tokens: seq<string>, more: seq<string>, width: Int32, row: Int32)
    requires 0 <= width <= |tokens|
    ensures RowValues(tokens + more, width, row) == RowValues(tokens, width, row)
  {
    ParseTokensPrefix(tokens, more, row, width as nat);
  }

  /** Reading the first `n` rows looks at no line past them. */
  lemma {:induction false} GridRowsPrefix(body: seq<string>, more: seq<string>, width: Int32, n: nat)
    requires n <= |body| && n <= width
    ensures GridRows(body + more, width, n) == GridRows(body, width, n)
    decreases n
  {
    if n > 0 {
      GridRowsPrefix(body, more, width, n - 1);
      assert (body + more)[n - 1] == body[n - 1];
    }
  }

  /** Lines after the first `width` are never looked at. */
  lemma ExtraRowsIgnored(body: seq<string>, more: seq<string>, width: Int32)
    requires 0 <= width <= |body|
    ensures Grid(body + more, width) == Grid(body, width)
  {
    GridRowsPrefix(body, more, width, width as nat);
  }

  /** Lines after the last board row are never looked at. */
  lemma ExtraLinesIgnored(lines: seq<string>, more: seq<string>)
    requires ReadSpec(lines).Ok?
    ensures ReadSpec(lines + more) == ReadSpec(lines)
  {
    var all := lines + more;
    assert all[0] == lines[0];
    assert all[1..] == lines[1..] + more;
    var sizes := BoardSpec(Some(lines[0])).value;
    WidthFits(sizes.0, sizes.1);
    var width: Int32 := sizes.0 * sizes.1;
    assert Grid(lines[1..], width).Ok?;
    ExtraRowsIgnored(lines[1..], more, width);
  }

  // ------------------------------------------------- inputs that read well

  /** Tokens that are all ints parse to their values. */
  lemma {:induction false} ParseAll(tokens: seq<string>, values: seq<int>, row: Int32, n: nat)
    requires n <= |tokens| == |values| && n <= INT_MAX
    requires forall k :: 0 <= k < |tokens| ==> ParseInt(tokens[k]) == Some(values[k])
    ensures ParseTokens(tokens, row, n).Ok? && ParseTokens(tokens, row, n).value == values[..n]
    decreases n
  {
    if n > 0 {
      ParseAll(tokens, values, row, n - 1);
      PrefixSnoc(values, n);
    }
  }

  /** Lines whose rows all read give the grid of those rows. */
  lemma {:induction false} GridAll(body: seq<string>, grid: seq<seq<int>>, width: Int32, n: nat)
    requires n <= |body| == |grid| && n <= width
    requires forall k: Int32 :: 0 <= k < |body| ==>
      RowValues(Tokens(body[k]), width, k).Ok? && RowValues(Tokens(body[k]), width, k).value == grid[k]
    ensures GridRows(body, width, n).Ok? && GridRows(body, width, n).value == grid[..n]
    decreases n
  {
    if n > 0 {
      var r: Int32 := (n - 1) as Int32;
      GridAll(body, grid, width, n - 1);
      assert RowValues(Tokens(body[r]), width, r).value == grid[r];
      PrefixSnoc(grid, n);
    }
  }

  /** A dimension line that reads, followed by rows that read, reads as a board. */
  lemma ReadSpecOk(lines: seq<string>, hsize: Int32, wsize: Int32, width: Int32)
    requires |lines| > 0 && BoardSpec(Some(lines[0])) == Ok((hsize, wsize))
    requires width == hsize * wsize && 0 <= width && Grid(lines[1..], width).Ok?
    ensures ReadSpec(lines) == Ok(Parsed(hsize, wsize, Grid(lines[1..], width).value))
  {
  }

  lemma PrefixSnoc<T>(s: seq<T>, n: nat)
    requires 0 < n <= |s|
    ensures s[..n] == s[..n - 1] + [s[n - 1]]
  {
  }
}
