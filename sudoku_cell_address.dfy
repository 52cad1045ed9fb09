/** The address of one Sudoku cell (src/gtf/puzzle/sudoku/graph/SudokuCellAddress.java). */
module SudokuCellAddresses {
  import opened Wrappers
  import opened JavaPlatform
  import opened ModularArithmetic

  /**
   * A cell of a board `width` cells wide. Dafny's structural `==` on this
   * datatype is the class's equals(): same width, row and column.
   */
  datatype CellAddress = CellAddress(width: Int32, row: Int32, col: Int32)
  {
    /** getRow. */
    function Row(): Int32 { row }

    /** getColumn. */
    function Column(): Int32 { col }

    /** hashCode: `row * width + col` in Java int arithmetic. */
    function HashCode(): Int32 { Wrap32(row * width + col) }

    /** toString. */
    function ToString(): string
    {
      "[row=" + IntToString(row) + ", col=" + IntToString(col) + "]"
    }
  }

  /** What the constructor accepts: a positive width and both coordinates in [0, width). */
  predicate InBoard(width: int, row: int, col: int)
  {
    width > 0 && 0 <= row < width && 0 <= col < width
  }

  /** The constructor: out-of-board coordinates throw IllegalArgumentException. */
  function New(width: Int32, row: Int32, col: Int32): (r: Result<CellAddress, JavaException>)
    ensures r.Ok? <==> InBoard(width, row, col)
    ensures r.Ok? ==> r.value.width == width && r.value.Row() == row && r.value.Column() == col
    ensures r.Err? ==> r.error == IllegalArgumentException(
      "[width=" + IntToString(width) + ",row=" + IntToString(row) + ",col=" + IntToString(col) + "]")
  {
    if width <= 0 || row < 0 || col < 0 || row >= width || col >= width then
      Err(IllegalArgumentException(
        "[width=" + IntToString(width) + ",row=" + IntToString(row) + ",col=" + IntToString(col) + "]"))
    else
      Ok(CellAddress(width, row, col))
  }

  /** equals(Object): true exactly for another address with the same width, row and column. */
  function Equals(a: CellAddress, o: JavaObject<CellAddress>): (r: bool)
    ensures o.NullReference? || o.OtherClassInstance? ==> !r
    ensures o.Instance? ==> (r <==> o.obj.width == a.width && o.obj.Row() == a.Row() && o.obj.Column() == a.Column())
  {
    match o
    case Instance(s) => a.width == s.width && a.row == s.row && a.col == s.col
    case _ => false
  }

  /** equals coincides with Dafny's `==` on addresses, so a map keyed by addresses behaves like the HashMap. */
  lemma EqualsIsIdentity(a: CellAddress, b: CellAddress)
    ensures Equals(a, Instance(b)) <==> a == b
  {
  }

  /**
   * On the board's own cells, when width² fits in a Java int, hashCode
   * does not wrap, lies in [0, width²) and tells cells apart.
   */
  lemma HashCodeRangeInjective(a: CellAddress, b: CellAddress)
    requires InBoard(a.width, a.row, a.col) && InBoard(b.width, b.row, b.col) && a.width == b.width
    requires a.width * a.width <= INT_MAX + 1
    ensures a.HashCode() == a.row * a.width + a.col
    ensures 0 <= a.HashCode() < a.width * a.width
    ensures a.HashCode() == b.HashCode() <==> a == b
  {
    RowMajorBelow(a.row, a.col, a.width);
    RowMajorBelow(b.row, b.col, b.width);
    if a.HashCode() == b.HashCode() {
      RowMajorInjective(a.row, a.col, b.row, b.col, a.width);
    }
  }

  lemma RowMajorBelow(row: int, col: int, w: int)
    requires 0 <= row < w && 0 <= col < w
    ensures 0 <= row * w + col < w * w
  {
    assert row * w <= (w - 1) * w;
  }

  lemma RowMajorInjective(r1: int, c1: int, r2: int, c2: int, w: int)
    requires 0 <= c1 < w && 0 <= c2 < w && r1 * w + c1 == r2 * w + c2
    ensures r1 == r2 && c1 == c2
  {
    assert (r1 - r2) * w == c2 - c1;
    NonZeroMultiple(r1 - r2, w);
  }

  lemma NonZeroMultiple(k: int, w: int)
    requires w > 0
    ensures k != 0 ==> Abs(k * w) >= w
  {
    if k != 0 {
      MultipleAtLeastDivisor(k, w);
    }
  }

  /** Integer.toString never produces a comma. */
  lemma NoCommaInInt(x: int)
    ensures ',' !in IntToString(x)
  {
    if x < 0 {
      assert IntToString(x) == "-" + NatToString(-x);
    }
  }

  /** A string cut at the first occurrence of a separator determines both parts. */
  lemma CutAtSeparator(x1: string, r1: string, x2: string, r2: string, sep: char)
    requires sep !in x1 && sep !in x2
    requires x1 + [sep] + r1 == x2 + [sep] + r2
    ensures x1 == x2 && r1 == r2
  {
    var s1, s2 := x1 + [sep] + r1, x2 + [sep] + r2;
    assert s1[|x1|] == sep && s2[|x2|] == sep;
    assert forall i :: 0 <= i < |x1| ==> s1[i] == x1[i];
    assert forall i :: 0 <= i < |x2| ==> s2[i] == x2[i];
    assert |x1| == |x2|;
    assert x1 == s1[..|x1|] && x2 == s2[..|x2|];
    assert r1 == s1[|x1| + 1..] && r2 == s2[|x2| + 1..];
  }

  /** The text after "[row=": the row, a comma, and the rest. */
  lemma AfterRowLabel(a: CellAddress)
    ensures a.ToString()[5..] == IntToString(a.row) + [','] + (" col=" + IntToString(a.col) + "]")
  {
  }

  /** The column text sits between " col=" and the closing bracket. */
  lemma ColumnText(c: string, d: string)
    requires " col=" + c + "]" == " col=" + d + "]"
    ensures c == d
  {
    var s := " col=" + c + "]";
    assert c == s[5..|s| - 1];
    assert d == s[5..|s| - 1];
  }

  /** toString determines the row and the column: different cells of one board print differently. */
  lemma ToStringDeterminesCell(a: CellAddress, b: CellAddress)
    requires a.ToString() == b.ToString()
    ensures a.Row() == b.Row() && a.Column() == b.Column()
  {
    NoCommaInInt(a.row);
    NoCommaInInt(b.row);
    AfterRowLabel(a);
    AfterRowLabel(b);
    CutAtSeparator(IntToString(a.row), " col=" + IntToString(a.col) + "]",
                   IntToString(b.row), " col=" + IntToString(b.col) + "]", ',');
    ColumnText(IntToString(a.col), IntToString(b.col));
    ParseIntOfIntToString(a.row);
    ParseIntOfIntToString(b.row);
    ParseIntOfIntToString(a.col);
    ParseIntOfIntToString(b.col);
  }
}
