/**
 * A Sudoku board (src/gtf/puzzle/sudoku/graph/SudokuBoard.java): a
 * colourable graph over the Sudoku topology, coloured with the numbers
 * 1..width, under the unalike-neighbours constraint with checking turned
 * off, addressed by row and column.
 */
module SudokuBoards {
  import opened Wrappers
  import opened JavaPlatform
  import opened ColourConstraints
  import opened ColourableGraphs
  import PaintByNumber
  import opened SudokuCellAddresses
  import opened SudokuTopologies

  /**
   * getValue on a colour map: an address off the board is refused by the
   * cell-address constructor; otherwise the cell's colour, null when unset.
   */
  function ValueAt(colours: Colours<CellAddress, int>, width: Int32, row: Int32, col: Int32): (r: Result<Option<int>, JavaException>)
    ensures r.Err? <==> !InBoard(width, row, col)
    ensures r.Err? ==> r.error == SudokuCellAddresses.New(width, row, col).error
    ensures r == Ok(None) <== InBoard(width, row, col) && CellAddress(width, row, col) !in colours
  {
    match SudokuCellAddresses.New(width, row, col)
    case Err(e) => Err(e)
    case Ok(addr) => Ok(ColourAt(colours, addr))
  }

  /** After storing `value` at (row, col), that cell reads `value` and every other cell reads as before. */
  lemma ValueAtStored(colours: Colours<CellAddress, int>, width: Int32, row: Int32, col: Int32, value: Option<int>,
                      r: Int32, c: Int32)
    requires InBoard(width, row, col)
    ensures ValueAt(colours[CellAddress(width, row, col) := value], width, r, c)
            == if r == row && c == col then Ok(value) else ValueAt(colours, width, r, c)
  {
  }

  class SudokuBoard {
    const topology: SudokuTopology
    const graph: ColourableGraph<CellAddress, int>

    /** The wiring the constructor sets up, kept by every operation. */
    ghost predicate Valid()
      reads this, graph
    {
      && Built(topology)
      && graph.Valid()
      && graph.topology == topology.AsTopology()
      && PaintByNumber.PaintByNumber(topology.Width(), graph.colourSpace).Valid()
      && graph.constraint == UnalikeNeighbours
      && !graph.checkConstraintOnSetColour
    }

    /** The graph construction of the two-argument constructor, given its topology and colour space. */
    constructor Wire(topology: SudokuTopology, colours: PaintByNumber.PaintByNumber)
      requires topology.NodeCount() >= 0
      ensures this.topology == topology && fresh(graph)
      ensures graph.State() == GraphState(topology.AsTopology(), colours.Colours(), UnalikeNeighbours, false, map[])
      ensures graph.Valid()
    {
      this.topology := topology;
      graph := new ColourableGraph(topology.AsTopology(), colours.Colours(), UnalikeNeighbours, false);
    }

    /**
     * The constructor: the topology's checks come first (zone width, then
     * zone height); a valid board starts with every cell empty.
     */
    static method New(hsize: Int32, wsize: Int32) returns (r: Result<SudokuBoard, JavaException>)
      requires hsize > 0 && wsize > 0 ==> IsInt32(hsize * hsize * wsize * wsize)
      ensures wsize <= 0 ==> r == Err(IllegalArgumentException("bad zone width " + IntToString(wsize)))
      ensures wsize > 0 && hsize <= 0 ==> r == Err(IllegalArgumentException("bad zone height " + IntToString(hsize)))
      ensures wsize > 0 && hsize > 0 ==> r.Ok? && fresh(r.value) && fresh(r.value.graph) && r.value.Valid()
      ensures r.Ok? ==> r.value.topology.hsize == hsize && r.value.topology.wsize == wsize
      ensures r.Ok? ==> forall row, col :: r.value.GetValue(row, col).Ok? ==> r.value.GetValue(row, col) == Ok(None)
    {
      var topology := SudokuTopologies.New(hsize, wsize);
      if topology.Err? {
        return Err(topology.error);
      }
      WidthFits(hsize, wsize);
      var range := PaintByNumber.New(hsize * wsize);
      var board := new SudokuBoard.Wire(topology.value, range.value);
      return Ok(board);
    }

    /** getValue: the value of the cell at (row, col), null when unset. */
    function GetValue(row: Int32, col: Int32): (r: Result<Option<int>, JavaException>)
      reads this, graph
    {
      ValueAt(graph.colours, topology.Width(), row, col)
    }

    /**
     * setCell: an address off the board throws; any other value, null,
     * out of range or clashing with a neighbour, is stored, since the
     * graph does not check its constraint.
     */
    method SetCell(row: Int32, col: Int32, value: Option<int>) returns (r: Result<(), JavaException>)
      requires Valid()
      modifies graph
      ensures Valid()
      ensures r.Err? <==> !InBoard(topology.Width(), row, col)
      ensures r.Err? ==> r.error == SudokuCellAddresses.New(topology.Width(), row, col).error
      ensures r.Err? ==> graph.colours == old(graph.colours)
      ensures r.Ok? ==> graph.colours == old(graph.colours)[CellAddress(topology.Width(), row, col) := value]
      ensures r.Ok? ==> GetValue(row, col) == Ok(value)
      ensures forall i, j :: i != row || j != col ==> GetValue(i, j) == old(GetValue(i, j))
    {
      var addr := SudokuCellAddresses.New(topology.Width(), row, col);
      if addr.Err? {
        return Err(addr.error);
      }
      var stored := graph.SetColour(addr.value, value);
      forall i, j | i != row || j != col
        ensures GetValue(i, j) == old(GetValue(i, j))
      {
        ValueAtStored(old(graph.colours), topology.Width(), row, col, value, i, j);
      }
      return Ok(());
    }
  }
}
