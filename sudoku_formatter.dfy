/**
 * The board pretty-printer (src/gtf/puzzle/sudoku/io/SudokuFormatter.java):
 * one text line per board row, the cells of a zone separated by spaces and
 * zones separated by "|", and a horizontal bar between bands of zones.
 */
module SudokuFormatters {
  import opened Wrappers
  import opened JavaPlatform
  import opened SudokuCellAddresses
  import opened SudokuTopologies
  import opened ColourConstraints
  import opened ColourableGraphs
  import opened ModularArithmetic

  /** The bar line without its newline. */
  const BAR_LINE: string := "-----+-----+-----"

  /**
   * createHorizontalBar: the same fixed bar, ended by a newline, whatever
   * the zone width and zone count it is given.
   */
  function CreateHorizontalBar(zoneWidth: Int32, numberOfZones: Int32): string
  {
    BAR_LINE + "\n"
  }

  /** The formatter's final fields: the topology it lays out and its bar. */
  datatype SudokuFormatter = SudokuFormatter(topology: SudokuTopology, horizontalBar: string)

  /** The constructor: the bar is built from the zone width and the zone height. */
  function New(topology: SudokuTopology): (f: SudokuFormatter)
    ensures f.topology == topology
  {
    SudokuFormatter(topology, CreateHorizontalBar(topology.ZoneWidth(), topology.ZoneHeight()))
  }

  /** A topology the constructor of SudokuTopology accepts: positive zone sizes and a width that fits. */
  predicate Laid(t: SudokuTopology)
  {
    t.hsize > 0 && t.wsize > 0 && IsInt32(t.hsize * t.wsize)
  }

  // ---------------------------------------------------------- the spec

  /** A cell: blank when uncoloured, otherwise its decimal value. */
  function CellText(v: Option<int>): string
  {
    if v.None? then " " else IntToString(v.value)
  }

  /**
   * What follows column `col`: nothing after the last column, "|" at the
   * end of a zone, a space otherwise. Both operands of `%` are positive
   * here, where Java's remainder and Dafny's agree.
   */
  function Separator(width: int, wsize: int, col: int): string
    requires wsize > 0 && col >= 0
  {
    if col < width - 1 then (if (col + 1) % wsize == 0 then "|" else " ") else ""
  }

  /** What the column loop of asString has appended after `n` columns of row `row`. */
  function FormatRow(colours: Colours<CellAddress, int>, width: Int32, wsize: int, row: Int32, n: nat): string
    requires wsize > 0 && n <= width
    decreases n
  {
    if n == 0 then ""
    else
      FormatRow(colours, width, wsize, row, n - 1) + Column(colours, width, wsize, row, (n - 1) as Int32)
  }

  /** Column `col` of row `row`: its cell and what follows it. */
  function Column(colours: Colours<CellAddress, int>, width: Int32, wsize: int, row: Int32, col: Int32): string
    requires wsize > 0 && col >= 0
  {
    CellText(ColourAt(colours, CellAddress(width, row, col))) + Separator(width, wsize, col)
  }

  /** What follows row `row`: nothing after the last row, else a newline and, at the end of a band, the bar. */
  function RowEnd(width: int, hsize: int, bar: string, row: int): string
    requires hsize > 0 && row >= 0
  {
    if row < width - 1 then "\n" + (if (row + 1) % hsize == 0 then bar else "") else ""
  }

  /** What asString has appended after `n` rows. */
  function FormatRows(colours: Colours<CellAddress, int>, width: Int32, hsize: int, wsize: int, bar: string, n: nat): string
    requires hsize > 0 && wsize > 0 && n <= width
    decreases n
  {
    if n == 0 then ""
    else
      FormatRows(colours, width, hsize, wsize, bar, n - 1)
      + FormatRow(colours, width, wsize, (n - 1) as Int32, width as nat)
      + RowEnd(width, hsize, bar, n - 1)
  }

  /** The text asString returns for a colour map. */
  function FormatText(f: SudokuFormatter, colours: Colours<CellAddress, int>): string
    requires Laid(f.topology)
  {
    var t := f.topology;
    FormatRows(colours, t.hsize * t.wsize, t.hsize, t.wsize, f.horizontalBar, (t.hsize * t.wsize) as nat)
  }

  // --------------------------------------------------- the implementation

  /** asString: every row of the board in order; the graph is only read. */
  method AsString(f: SudokuFormatter, graph: ColourableGraph<CellAddress, int>) returns (s: string)
    requires Laid(f.topology)
    ensures s == FormatText(f, graph.colours)
  {
    var width := f.topology.Width();
    var hsize := f.topology.ZoneHeight();
    var wsize := f.topology.ZoneWidth();
    s := "";
    var row: Int32 := 0;
    while row < width
      invariant 0 <= row <= width
      invariant s == FormatRows(graph.colours, width, hsize, wsize, f.horizontalBar, row as nat)
    {
      var line := FormatCells(f, graph, row);
      var after := "";
      if row < width - 1 {
        after := "\n";
        if (row + 1) % hsize == 0 {
          after := after + f.horizontalBar;
        }
      }
      s := s + line + after;
      row := row + 1;
    }
  }

  /** The column loop of asString for one row. */
  method FormatCells(f: SudokuFormatter, graph: ColourableGraph<CellAddress, int>, row: Int32) returns (line: string)
    requires Laid(f.topology) && 0 <= row < f.topology.Width()
    ensures line == FormatRow(graph.colours, f.topology.Width(), f.topology.wsize, row, f.topology.Width() as nat)
  {
    var width := f.topology.Width();
    var wsize := f.topology.ZoneWidth();
    line := "";
    var col: Int32 := 0;
    while col < width
      invariant 0 <= col <= width
      invariant line == FormatRow(graph.colours, width, wsize, row, col as nat)
    {
      var cell := FormatCell(graph, width, row, col);
      var separator := "";
      if col < width - 1 {
        separator := if (col + 1) % wsize == 0 then "|" else " ";
      }
      line := line + (cell + separator);
      col := col + 1;
    }
  }

  /** One cell of the column loop: the address is built, its colour looked up and printed. */
  method FormatCell(graph: ColourableGraph<CellAddress, int>, width: Int32, row: Int32, col: Int32) returns (text: string)
    requires InBoard(width, row, col)
    ensures text == CellText(ColourAt(graph.colours, CellAddress(width, row, col)))
  {
    var addr := SudokuCellAddresses.New(width, row, col);
    var value := graph.GetColour(addr.value);
    text := if value.None? then " " else IntToString(value.value);
  }

  // -------------------------------------------------- properties of the spec

  /** The lines of the first `n` rows: each row's line, then the bar line at the end of every band but the last. */
  function FormatLines(colours: Colours<CellAddress, int>, width: Int32, hsize: int, wsize: int, n: nat): seq<string>
    requires hsize > 0 && wsize > 0 && n <= width
    decreases n
  {
    if n == 0 then []
    else
      FormatLines(colours, width, hsize, wsize, n - 1)
      + [FormatRow(colours, width, wsize, (n - 1) as Int32, width as nat)]
      + (if n - 1 < width - 1 && n % hsize == 0 then [BAR_LINE] else [])
  }

  /** How many of 1..n are multiples of k. */
  function Multiples(n: nat, k: int): nat
    requires k > 0
  {
    if n == 0 then 0 else Multiples(n - 1, k) + (if n % k == 0 then 1 else 0)
  }

  /** The quotient and remainder of a division are the only ones. */
  lemma DivUnique(n: int, k: int, q: int, r: int)
    requires k > 0 && 0 <= r < k && n == q * k + r
    ensures n / k == q && n % k == r
  {
    var d, m := n / k, n % k;
    if d != q {
      assert (q - d) * k == m - r by {
        assert (q - d) * k == q * k - d * k;
      }
      MultipleAtLeastDivisor(q - d, k);
    }
  }

  /** Counting up to n adds one exactly when n is a multiple of k. */
  lemma DivStep(n: int, k: int)
    requires n > 0 && k > 0
    ensures n / k == (n - 1) / k + (if n % k == 0 then 1 else 0)
  {
    var q, r := (n - 1) / k, (n - 1) % k;
    if r + 1 < k {
      DivUnique(n, k, q, r + 1);
    } else {
      assert n == (q + 1) * k + 0;
      DivUnique(n, k, q + 1, 0);
    }
  }

  /** There are n / k multiples of k among 1..n. */
  lemma {:induction false} MultiplesCount(n: nat, k: int)
    requires k > 0
    ensures Multiples(n, k) == n / k
    decreases n
  {
    if n > 0 {
      MultiplesCount(n - 1, k);
      DivStep(n, k);
    }
  }

  /** How often `c` occurs in `s`. */
  function Occurrences(s: string, c: char): nat
  {
    if s == [] then 0 else Occurrences(s[..|s| - 1], c) + (if s[|s| - 1] == c then 1 else 0)
  }

  lemma {:induction false} OccurrencesAppend(a: string, b: string, c: char)
    ensures Occurrences(a + b, c) == Occurrences(a, c) + Occurrences(b, c)
    decreases |b|
  {
    if b != [] {
      assert (a + b)[..|a + b| - 1] == a + b[..|b| - 1];
      OccurrencesAppend(a, b[..|b| - 1], c);
    } else {
      assert a + b == a;
    }
  }

  /** A cell holds no "|" and no newline, and is never empty. */
  lemma CellTextPlain(v: Option<int>)
    ensures Occurrences(CellText(v), '|') == 0 && Occurrences(CellText(v), '\n') == 0 && |CellText(v)| > 0
  {
    var s := CellText(v);
    if v.Some? {
      IntToStringChars(v.value);
      NoneOf(s, '|');
      NoneOf(s, '\n');
    } else {
      assert s == [' '];
      assert s[..0] == [];
    }
  }

  lemma {:induction false} NoneOf(s: string, c: char)
    requires c != '-' && !IsDigit(c)
    requires forall i :: 0 <= i < |s| ==> s[i] == '-' || IsDigit(s[i])
    ensures Occurrences(s, c) == 0
    decreases |s|
  {
    if s != [] {
      NoneOf(s[..|s| - 1], c);
    }
  }

  /** A character that does not occur is at no index. */
  lemma {:induction false} AbsentEverywhere(s: string, c: char)
    requires Occurrences(s, c) == 0
    ensures forall i :: 0 <= i < |s| ==> s[i] != c
    decreases |s|
  {
    if s != [] {
      AbsentEverywhere(s[..|s| - 1], c);
      forall i | 0 <= i < |s| ensures s[i] != c {
        if i < |s| - 1 {
          assert s[i] == s[..|s| - 1][i];
        }
      }
    }
  }

  /** A separator is a "|" exactly at the end of a zone that is not the last column. */
  lemma SeparatorBars(width: int, wsize: int, col: int)
    requires wsize > 0 && col >= 0
    ensures Occurrences(Separator(width, wsize, col), '|') == (if col < width - 1 && (col + 1) % wsize == 0 then 1 else 0)
    ensures Occurrences(Separator(width, wsize, col), '\n') == 0
  {
    var sep := Separator(width, wsize, col);
    if sep != "" {
      assert sep[..0] == [];
    }
  }

  /** One column's text: its cell and its separator. */
  lemma ColumnPlain(colours: Colours<CellAddress, int>, width: Int32, wsize: int, row: Int32, col: Int32)
    requires wsize > 0 && col >= 0
    ensures var piece := Column(colours, width, wsize, row, col);
            Occurrences(piece, '\n') == 0 && |piece| > 0
            && Occurrences(piece, '|') == (if col < width - 1 && (col + 1) % wsize == 0 then 1 else 0)
  {
    var cell := CellText(ColourAt(colours, CellAddress(width, row, col)));
    var sep := Separator(width, wsize, col);
    CellTextPlain(ColourAt(colours, CellAddress(width, row, col)));
    SeparatorBars(width, wsize, col);
    OccurrencesAppend(cell, sep, '|');
    OccurrencesAppend(cell, sep, '\n');
  }

  /** The first `n` columns of a row, with `n` capped below the last column. */
  function Columns(width: int, n: nat): nat
  {
    if n < width || n == 0 then n else n - 1
  }

  /**
   * The zone separators of a row: after `n` columns, one "|" for every
   * zone end among the first columns but the last.
   */
  lemma {:induction false} RowBars(colours: Colours<CellAddress, int>, width: Int32, wsize: int, row: Int32, n: nat)
    requires wsize > 0 && n <= width
    ensures Occurrences(FormatRow(colours, width, wsize, row, n), '|') == Multiples(Columns(width, n), wsize)
    decreases n
  {
    if n > 0 {
      RowBars(colours, width, wsize, row, n - 1);
      RowBarsStep(colours, width, wsize, row, n);
    }
  }

  lemma RowBarsStep(colours: Colours<CellAddress, int>, width: Int32, wsize: int, row: Int32, n: nat)
    requires wsize > 0 && 0 < n <= width
    requires Occurrences(FormatRow(colours, width, wsize, row, n - 1), '|') == Multiples(Columns(width, n - 1), wsize)
    ensures Occurrences(FormatRow(colours, width, wsize, row, n), '|') == Multiples(Columns(width, n), wsize)
  {
    var col := (n - 1) as Int32;
    ColumnPlain(colours, width, wsize, row, col);
    OccurrencesAppend(FormatRow(colours, width, wsize, row, n - 1), Column(colours, width, wsize, row, col), '|');
  }

  /** A row line is never empty and holds no newline. */
  lemma RowPlain(colours: Colours<CellAddress, int>, width: Int32, wsize: int, row: Int32, n: nat)
    requires wsize > 0 && n <= width
    ensures NoNewline(FormatRow(colours, width, wsize, row, n))
    ensures n > 0 ==> |FormatRow(colours, width, wsize, row, n)| > 0
  {
    RowNewlines(colours, width, wsize, row, n);
    AbsentEverywhere(FormatRow(colours, width, wsize, row, n), '\n');
  }

  lemma {:induction false} RowNewlines(colours: Colours<CellAddress, int>, width: Int32, wsize: int, row: Int32, n: nat)
    requires wsize > 0 && n <= width
    ensures Occurrences(FormatRow(colours, width, wsize, row, n), '\n') == 0
    ensures n > 0 ==> |FormatRow(colours, width, wsize, row, n)| > 0
    decreases n
  {
    if n > 0 {
      RowNewlines(colours, width, wsize, row, n - 1);
      RowNewlinesStep(colours, width, wsize, row, n);
    }
  }

  lemma RowNewlinesStep(colours: Colours<CellAddress, int>, width: Int32, wsize: int, row: Int32, n: nat)
    requires wsize > 0 && 0 < n <= width
    requires Occurrences(FormatRow(colours, width, wsize, row, n - 1), '\n') == 0
    ensures Occurrences(FormatRow(colours, width, wsize, row, n), '\n') == 0 && |FormatRow(colours, width, wsize, row, n)| > 0
  {
    var col := (n - 1) as Int32;
    ColumnPlain(colours, width, wsize, row, col);
    OccurrencesAppend(FormatRow(colours, width, wsize, row, n - 1), Column(colours, width, wsize, row, col), '\n');
  }

  /** Every row line of a board with zones `wsize` wide holds (width - 1) / wsize zone separators. */
  lemma RowSeparators(colours: Colours<CellAddress, int>, width: Int32, wsize: int, row: Int32)
    requires wsize > 0 && width > 0
    ensures Occurrences(FormatRow(colours, width, wsize, row, width as nat), '|') == (width - 1) / wsize
  {
    RowBars(colours, width, wsize, row, width as nat);
    MultiplesCount(width as nat - 1, wsize);
  }

  /** Every line holds no newline. */
  predicate Plain(ls: seq<string>)
  {
    forall i :: 0 <= i < |ls| ==> NoNewline(ls[i])
  }

  /** The row lines and bar lines hold no newline. */
  lemma {:induction false} FormatLinesPlain(colours: Colours<CellAddress, int>, width: Int32, hsize: int, wsize: int, n: nat)
    requires hsize > 0 && wsize > 0 && n <= width
    ensures Plain(FormatLines(colours, width, hsize, wsize, n))
    decreases n
  {
    if n > 0 {
      var prev := FormatLines(colours, width, hsize, wsize, n - 1);
      var line := FormatRow(colours, width, wsize, (n - 1) as Int32, width as nat);
      var bar: seq<string> := if n - 1 < width - 1 && n % hsize == 0 then [BAR_LINE] else [];
      FormatLinesPlain(colours, width, hsize, wsize, n - 1);
      RowPlain(colours, width, wsize, (n - 1) as Int32, width as nat);
      assert NoNewline(BAR_LINE);
      var all := prev + [line] + bar;
      forall i | 0 <= i < |all| ensures NoNewline(all[i]) {
        if i < |prev| {
          assert all[i] == prev[i];
        } else if i == |prev| {
          assert all[i] == line;
        } else {
          assert all[i] == BAR_LINE;
        }
      }
    }
  }

  /** Appending a row and what follows it, as printed lines. */
  lemma RowStep(prev: seq<string>, line: string, bar: bool)
    ensures Terminated(prev) + line + ("\n" + (if bar then BAR_LINE + "\n" else ""))
            == Terminated(prev + [line] + (if bar then [BAR_LINE] else []))
  {
    TerminatedSnoc(prev, line);
    if bar {
      TerminatedSnoc(prev + [line], BAR_LINE);
      assert Terminated(prev) + line + ("\n" + (BAR_LINE + "\n"))
          == (Terminated(prev) + line + "\n") + BAR_LINE + "\n";
    } else {
      assert prev + [line] + [] == prev + [line];
    }
  }

  /** Before the last row, the text is the lines so far, each ended by a newline. */
  lemma {:induction false} FormatRowsTerminated(colours: Colours<CellAddress, int>, width: Int32, hsize: int, wsize: int, n: nat)
    requires hsize > 0 && wsize > 0 && n < width
    ensures FormatRows(colours, width, hsize, wsize, BAR_LINE + "\n", n) == Terminated(FormatLines(colours, width, hsize, wsize, n))
    decreases n
  {
    if n > 0 {
      FormatRowsTerminated(colours, width, hsize, wsize, n - 1);
      RowStep(FormatLines(colours, width, hsize, wsize, n - 1),
              FormatRow(colours, width, wsize, (n - 1) as Int32, width as nat), n % hsize == 0);
    }
  }

  /** The whole text, read back line by line: every row line, and the bar lines between bands. */
  lemma FormatRowsLines(colours: Colours<CellAddress, int>, width: Int32, hsize: int, wsize: int)
    requires hsize > 0 && wsize > 0 && width > 0
    ensures Lines(FormatRows(colours, width, hsize, wsize, BAR_LINE + "\n", width as nat))
            == FormatLines(colours, width, hsize, wsize, width as nat)
  {
    var prev := FormatLines(colours, width, hsize, wsize, width as nat - 1);
    var last := FormatRow(colours, width, wsize, width - 1, width as nat);
    FormatRowsTerminated(colours, width, hsize, wsize, width as nat - 1);
    FormatLinesPlain(colours, width, hsize, wsize, width as nat - 1);
    RowPlain(colours, width, wsize, width - 1, width as nat);
    LinesOfTerminatedThen(prev, last);
    assert Terminated(prev) + last + "" == Terminated(prev) + last;
    assert FormatLines(colours, width, hsize, wsize, width as nat) == prev + [last] + [];
  }

  /**
   * The lines of asString's text: row by row, with the bar line after
   * every band of `hsize` rows except the last, and no newline at the end.
   */
  lemma FormattedLines(f: SudokuFormatter, colours: Colours<CellAddress, int>)
    requires Laid(f.topology) && f == New(f.topology)
    ensures Lines(FormatText(f, colours))
            == FormatLines(colours, f.topology.hsize * f.topology.wsize, f.topology.hsize, f.topology.wsize,
                           (f.topology.hsize * f.topology.wsize) as nat)
  {
    PositiveWidth(f.topology.hsize, f.topology.wsize);
    FormatRowsLines(colours, f.topology.hsize * f.topology.wsize, f.topology.hsize, f.topology.wsize);
  }

  lemma PositiveWidth(hsize: int, wsize: int)
    requires hsize > 0 && wsize > 0
    ensures hsize * wsize > 0
  {
    NatMultipleAtLeast(hsize, wsize);
  }

  /** Every cell of row `row` prints as one character: blank or a single digit. */
  predicate NarrowRow(colours: Colours<CellAddress, int>, width: Int32, row: Int32)
  {
    forall col: Int32 :: 0 <= col < width ==> |CellText(ColourAt(colours, CellAddress(width, row, col)))| == 1
  }

  /** With one-character cells, the first `n` columns take one character each plus their separators. */
  lemma {:induction false} NarrowRowLength(colours: Colours<CellAddress, int>, width: Int32, wsize: int, row: Int32, n: nat)
    requires wsize > 0 && n <= width && NarrowRow(colours, width, row)
    ensures |FormatRow(colours, width, wsize, row, n)| == n + Columns(width, n)
    decreases n
  {
    if n > 0 {
      var col := (n - 1) as Int32;
      NarrowRowLength(colours, width, wsize, row, n - 1);
      assert |CellText(ColourAt(colours, CellAddress(width, row, col)))| == 1;
    }
  }

  /**
   * The fixed bar is as wide as a row of one-character cells exactly when
   * the board is nine cells wide: it does not follow the zone sizes.
   */
  lemma BarFitsOnlyNine(f: SudokuFormatter, colours: Colours<CellAddress, int>, row: Int32)
    requires Laid(f.topology) && f == New(f.topology)
    requires NarrowRow(colours, f.topology.hsize * f.topology.wsize, row)
    ensures f.horizontalBar == BAR_LINE + "\n"
    ensures var width := f.topology.hsize * f.topology.wsize;
            |FormatRow(colours, width, f.topology.wsize, row, width as nat)| == |BAR_LINE| <==> width == 9
  {
    PositiveWidth(f.topology.hsize, f.topology.wsize);
    NarrowRowLength(colours, f.topology.hsize * f.topology.wsize, f.topology.wsize, row, (f.topology.hsize * f.topology.wsize) as nat);
  }

  /** The first `n` rows take n lines plus one bar line per completed band, the last row excepted. */
  lemma {:induction false} FormatLinesCount(colours: Colours<CellAddress, int>, width: Int32, hsize: int, wsize: int, n: nat)
    requires hsize > 0 && wsize > 0 && n <= width
    ensures |FormatLines(colours, width, hsize, wsize, n)| == n + Multiples(Columns(width, n), hsize)
    decreases n
  {
    if n > 0 {
      FormatLinesCount(colours, width, hsize, wsize, n - 1);
    }
  }

  /** asString's text has width row lines and (width - 1) / hsize bar lines. */
  lemma LineCount(f: SudokuFormatter, colours: Colours<CellAddress, int>)
    requires Laid(f.topology) && f == New(f.topology)
    ensures |Lines(FormatText(f, colours))| == f.topology.hsize * f.topology.wsize + (f.topology.hsize * f.topology.wsize - 1) / f.topology.hsize
  {
    var t := f.topology;
    var width: Int32 := t.hsize * t.wsize;
    PositiveWidth(t.hsize, t.wsize);
    FormattedLines(f, colours);
    FormatLinesCount(colours, width, t.hsize, t.wsize, width as nat);
    MultiplesCount(width as nat - 1, t.hsize);
  }
}
