/**
 * The row / column / zone adjacency of a Sudoku board
 * (src/gtf/puzzle/sudoku/graph/SudokuTopology.java). A zone is `hsize`
 * rows high and `wsize` columns wide; the board is `hsize * wsize` cells
 * on a side.
 */
module SudokuTopologies {
  import opened Wrappers
  import opened JavaPlatform
  import opened Topologies
  import opened SudokuCellAddresses

  /** The constructed topology: zone sizes, the node list and the neighbour map. */
  datatype SudokuTopology = SudokuTopology(hsize: Int32, wsize: Int32, allNodes: seq<CellAddress>,
                                           neighbours: map<CellAddress, seq<CellAddress>>)
  {
    /** getZoneHeight. */
    function ZoneHeight(): Int32 { hsize }

    /** getZoneWidth. */
    function ZoneWidth(): Int32 { wsize }

    /** getWidth: `hsize * wsize` in Java int arithmetic. */
    function Width(): (r: Int32)
      ensures IsInt32(hsize * wsize) ==> r == hsize * wsize
    {
      Wrap32(hsize * wsize)
    }

    /** getNodeCount: `hsize * hsize * wsize * wsize` in Java int arithmetic. */
    function NodeCount(): (r: Int32)
      ensures hsize > 0 && wsize > 0 && IsInt32(hsize * hsize * wsize * wsize) ==> r == Width() * Width()
    {
      if hsize > 0 && wsize > 0 && IsInt32(hsize * hsize * wsize * wsize) then
        WidthFits(hsize, wsize);
        Wrap32(hsize * hsize * wsize * wsize)
      else
        Wrap32(hsize * hsize * wsize * wsize)
    }

    /** getAllNodes. */
    function AllNodes(): seq<CellAddress> { allNodes }

    /** getNeighbours: an address that is not a cell of this board has no list, which throws. */
    function Neighbours(n: CellAddress): (r: Result<seq<CellAddress>, JavaException>)
      ensures r.Ok? <==> n in neighbours
      ensures r.Ok? ==> r.value == neighbours[n]
    {
      if n in neighbours then Ok(neighbours[n]) else Err(NullPointerException)
    }

    /** The same topology as a generic graph topology. */
    function AsTopology(): Topology<CellAddress>
    {
      Topology(allNodes, neighbours, NodeCount())
    }
  }

  lemma WidthFits(hsize: int, wsize: int)
    requires hsize > 0 && wsize > 0 && IsInt32(hsize * hsize * wsize * wsize)
    ensures IsInt32(hsize * wsize)
    ensures hsize * hsize * wsize * wsize == (hsize * wsize) * (hsize * wsize)
  {
    var w := hsize * wsize;
    assert hsize * hsize * wsize == hsize * w;
    assert hsize * hsize * wsize * wsize == w * w;
    NonNegativeProduct(w, w - 1);
    assert w * w == w * (w - 1) + w;
  }

  lemma NonNegativeProduct(a: int, b: int)
    requires a >= 0 && b >= 0
    ensures a * b >= 0
  {
  }

  // ------------------------------------------------------------ the spec

  /** A cell of the board `w` cells wide. */
  predicate OnBoard(w: int, a: CellAddress)
  {
    a.width == w && 0 <= a.row < w && 0 <= a.col < w
  }

  /** Row `r` of the board, left to right. */
  function Row(w: Int32, r: Int32): (s: seq<CellAddress>)
    requires 0 <= r < w
    ensures |s| == w
    ensures forall c :: 0 <= c < w ==> s[c] == CellAddress(w, r, c)
  {
    seq(w, c requires 0 <= c < w => CellAddress(w, r, c))
  }

  /** The first `n` rows of the board, in row-major order. */
  function Rows(w: Int32, n: nat): (s: seq<CellAddress>)
    requires n <= w
    ensures |s| == n * w
    decreases n
  {
    if n == 0 then [] else Rows(w, n - 1) + Row(w, n - 1)
  }

  /** The cells of the whole board, row-major: what getAllNodes lists. */
  function Cells(w: Int32): seq<CellAddress>
    requires w >= 0
  {
    Rows(w, w)
  }

  /** Two cells lie in the same zone (Java's `/` on non-negative ints). */
  predicate SameZone(hsize: int, wsize: int, a: CellAddress, b: CellAddress)
    requires hsize > 0 && wsize > 0
  {
    a.row / hsize == b.row / hsize && a.col / wsize == b.col / wsize
  }

  /** Distinct cells sharing a row, a column or a zone. */
  predicate Related(hsize: int, wsize: int, a: CellAddress, b: CellAddress)
    requires hsize > 0 && wsize > 0
  {
    a != b && (a.row == b.row || a.col == b.col || SameZone(hsize, wsize, a, b))
  }

  /** The cells of `xs` related to `a`, in the order of `xs`. */
  function Adjacent(hsize: int, wsize: int, a: CellAddress, xs: seq<CellAddress>): (r: seq<CellAddress>)
    requires hsize > 0 && wsize > 0
    ensures |r| <= |xs|
    decreases |xs|
  {
    if xs == [] then []
    else
      var last := xs[|xs| - 1];
      Adjacent(hsize, wsize, a, xs[..|xs| - 1]) + (if Related(hsize, wsize, a, last) then [last] else [])
  }

  /** The neighbour list of `a`: the related cells in row-major order. */
  function NeighbourList(hsize: Int32, wsize: Int32, a: CellAddress): seq<CellAddress>
    requires hsize > 0 && wsize > 0 && IsInt32(hsize * wsize)
  {
    Adjacent(hsize, wsize, a, Cells(hsize * wsize))
  }

  /** What the constructor builds for valid zone sizes. */
  ghost predicate Built(t: SudokuTopology)
  {
    && t.hsize > 0 && t.wsize > 0 && IsInt32(t.hsize * t.hsize * t.wsize * t.wsize) && IsInt32(t.hsize * t.wsize)
    && t.allNodes == Cells(t.hsize * t.wsize)
    && (forall a :: a in t.neighbours <==> OnBoard(t.hsize * t.wsize, a))
    && (forall a :: a in t.neighbours ==> t.neighbours[a] == NeighbourList(t.hsize, t.wsize, a))
  }

  // ------------------------------------------------------ the constructor

  /** The `cells` array: entry (i, j) is the address of row i, column j. */
  ghost predicate CellsFilled(cells: array2<CellAddress>, w: Int32)
    reads cells
  {
    cells.Length0 == w && cells.Length1 == w
    && forall i, j :: 0 <= i < w && 0 <= j < w ==> cells[i, j] == CellAddress(w, i, j)
  }

  /** The neighbour map has exactly the board's cells as keys. */
  ghost predicate BoardKeys(m: map<CellAddress, seq<CellAddress>>, w: int)
  {
    forall a :: a in m <==> OnBoard(w, a)
  }

  /**
   * The constructor: the zone width is checked first, then the zone
   * height; then the first pair of loops creates every cell with an empty
   * neighbour list, and the second pair adds each cell, in row-major
   * order, to the lists of the cells it is related to.
   */
  method New(hsize: Int32, wsize: Int32) returns (r: Result<SudokuTopology, JavaException>)
    requires hsize > 0 && wsize > 0 ==> IsInt32(hsize * hsize * wsize * wsize)
    ensures wsize <= 0 ==> r == Err(IllegalArgumentException("bad zone width " + IntToString(wsize)))
    ensures wsize > 0 && hsize <= 0 ==> r == Err(IllegalArgumentException("bad zone height " + IntToString(hsize)))
    ensures wsize > 0 && hsize > 0 ==> r.Ok? && r.value.hsize == hsize && r.value.wsize == wsize && Built(r.value)
  {
    if wsize <= 0 {
      return Err(IllegalArgumentException("bad zone width " + IntToString(wsize)));
    }
    if hsize <= 0 {
      return Err(IllegalArgumentException("bad zone height " + IntToString(hsize)));
    }
    WidthFits(hsize, wsize);
    var width: Int32 := hsize * wsize;
    var cells, allNodes, empty := CreateCells(width);
    var neighbours := AddAll(cells, hsize, wsize, empty);
    return Ok(SudokuTopology(hsize, wsize, allNodes, neighbours));
  }

  /** The first pair of loops: every cell, its array slot, and an empty list for it. */
  method CreateCells(width: Int32) returns (cells: array2<CellAddress>, allNodes: seq<CellAddress>,
                                            neighbours: map<CellAddress, seq<CellAddress>>)
    requires width > 0
    ensures fresh(cells) && CellsFilled(cells, width)
    ensures allNodes == Cells(width)
    ensures BoardKeys(neighbours, width) && forall a :: a in neighbours ==> neighbours[a] == []
  {
    cells := new CellAddress[width, width];
    allNodes := [];
    neighbours := map[];
    for row := 0 to width
      invariant allNodes == Rows(width, row)
      invariant forall a :: a in neighbours <==> a.width == width && 0 <= a.row < row && 0 <= a.col < width
      invariant forall a :: a in neighbours ==> neighbours[a] == []
      invariant forall i, j :: 0 <= i < row && 0 <= j < width ==> cells[i, j] == CellAddress(width, i, j)
    {
      allNodes, neighbours := CreateRow(cells, width, row, allNodes, neighbours);
      assert Rows(width, row + 1) == Rows(width, row) + Row(width, row);
    }
  }

  /** The inner loop of the first pair: the cells of row `row`, left to right. */
  method CreateRow(cells: array2<CellAddress>, width: Int32, row: Int32, nodes: seq<CellAddress>,
                   m: map<CellAddress, seq<CellAddress>>)
    returns (allNodes: seq<CellAddress>, neighbours: map<CellAddress, seq<CellAddress>>)
    requires 0 <= row < width && cells.Length0 == width && cells.Length1 == width
    requires forall a :: a in m <==> a.width == width && 0 <= a.row < row && 0 <= a.col < width
    requires forall a :: a in m ==> m[a] == []
    modifies cells
    ensures allNodes == nodes + Row(width, row)
    ensures forall a :: a in neighbours <==> a.width == width && 0 <= a.row <= row && 0 <= a.col < width
    ensures forall a :: a in neighbours ==> neighbours[a] == []
    ensures forall i, j :: 0 <= i < width && i != row && 0 <= j < width ==> cells[i, j] == old(cells[i, j])
    ensures forall j :: 0 <= j < width ==> cells[row, j] == CellAddress(width, row, j)
  {
    allNodes := nodes;
    neighbours := m;
    for col := 0 to width
      invariant allNodes == nodes + Row(width, row)[..col]
      invariant forall a :: a in neighbours <==> a.width == width && 0 <= a.col < width
                                                 && (0 <= a.row < row || (a.row == row && a.col < col))
      invariant forall a :: a in neighbours ==> neighbours[a] == []
      invariant forall i, j :: 0 <= i < width && i != row && 0 <= j < width ==> cells[i, j] == old(cells[i, j])
      invariant forall j :: 0 <= j < col ==> cells[row, j] == CellAddress(width, row, j)
    {
      var addr := SudokuCellAddresses.New(width, row, col).value;
      cells[row, col] := addr;
      assert Row(width, row)[..col + 1] == Row(width, row)[..col] + [addr];
      allNodes := allNodes + [addr];
      neighbours := neighbours[addr := []];
    }
    assert Row(width, row)[..width] == Row(width, row);
  }

  /** The second pair of loops, over the rows. */
  method AddAll(cells: array2<CellAddress>, hsize: Int32, wsize: Int32, m: map<CellAddress, seq<CellAddress>>)
    returns (neighbours: map<CellAddress, seq<CellAddress>>)
    requires hsize > 0 && wsize > 0 && IsInt32(hsize * wsize)
    requires CellsFilled(cells, hsize * wsize) && BoardKeys(m, hsize * wsize)
    requires forall a :: a in m ==> m[a] == []
    ensures BoardKeys(neighbours, hsize * wsize)
    ensures forall a :: a in neighbours ==> neighbours[a] == NeighbourList(hsize, wsize, a)
  {
    var width: Int32 := hsize * wsize;
    neighbours := m;
    for row := 0 to width
      invariant BoardKeys(neighbours, width)
      invariant forall a :: a in neighbours ==> neighbours[a] == Adjacent(hsize, wsize, a, Rows(width, row))
    {
      neighbours := AddRow(cells, hsize, wsize, row, neighbours);
    }
  }

  /** The inner loop of the second pair: each cell of row `row` in turn. */
  method AddRow(cells: array2<CellAddress>, hsize: Int32, wsize: Int32, row: Int32,
                m: map<CellAddress, seq<CellAddress>>) returns (neighbours: map<CellAddress, seq<CellAddress>>)
    requires hsize > 0 && wsize > 0 && IsInt32(hsize * wsize) && 0 <= row < hsize * wsize
    requires CellsFilled(cells, hsize * wsize) && BoardKeys(m, hsize * wsize)
    requires forall a :: a in m ==> m[a] == Adjacent(hsize, wsize, a, Rows(hsize * wsize, row))
    ensures BoardKeys(neighbours, hsize * wsize)
    ensures forall a :: a in neighbours ==> neighbours[a] == Adjacent(hsize, wsize, a, Rows(hsize * wsize, row + 1))
  {
    var width: Int32 := hsize * wsize;
    ghost var done := Rows(width, row);
    ghost var prefix := done;
    assert done + Row(width, row)[..0] == done;
    neighbours := m;
    for col := 0 to width
      invariant prefix == done + Row(width, row)[..col]
      invariant BoardKeys(neighbours, width)
      invariant forall a :: a in neighbours ==> neighbours[a] == Adjacent(hsize, wsize, a, prefix)
    {
      var node := cells[row, col];
      neighbours := AddNode(cells, hsize, wsize, row, col, neighbours);
      AdjacentSnoc(hsize, wsize, prefix, node);
      assert Row(width, row)[..col + 1] == Row(width, row)[..col] + [node];
      prefix := prefix + [node];
    }
    assert Row(width, row)[..width] == Row(width, row);
  }

  lemma AdjacentSnoc(hsize: int, wsize: int, xs: seq<CellAddress>, x: CellAddress)
    requires hsize > 0 && wsize > 0
    ensures forall a :: Adjacent(hsize, wsize, a, xs + [x])
                        == Adjacent(hsize, wsize, a, xs) + (if Related(hsize, wsize, a, x) then [x] else [])
  {
    assert (xs + [x])[..|xs|] == xs;
  }

  /**
   * The body of the second pair of loops for the cell at (row, col): it is
   * appended to the list of every cell it is related to, and only to those.
   */
  method AddNode(cells: array2<CellAddress>, hsize: Int32, wsize: Int32, row: Int32, col: Int32,
                 m: map<CellAddress, seq<CellAddress>>) returns (neighbours: map<CellAddress, seq<CellAddress>>)
    requires hsize > 0 && wsize > 0 && IsInt32(hsize * wsize) && 0 <= row < hsize * wsize && 0 <= col < hsize * wsize
    requires CellsFilled(cells, hsize * wsize) && BoardKeys(m, hsize * wsize)
    ensures BoardKeys(neighbours, hsize * wsize)
    ensures forall a :: a in m ==> neighbours[a] == m[a] + (if Related(hsize, wsize, a, cells[row, col]) then [cells[row, col]] else [])
  {
    var node := cells[row, col];
    var m1 := AddToColumn(cells, hsize * wsize, row, col, m);
    var m2 := AddToRow(cells, hsize * wsize, row, col, m1);
    neighbours := AddToZone(cells, hsize, wsize, row, col, m2);
    forall a | a in m
      ensures neighbours[a] == m[a] + (if Related(hsize, wsize, a, node) then [node] else [])
    {
      assert OnBoard(hsize * wsize, a);
    }
  }

  /** The column loop: every other cell of the column gets the node. */
  method AddToColumn(cells: array2<CellAddress>, width: Int32, row: Int32, col: Int32,
                     m: map<CellAddress, seq<CellAddress>>) returns (neighbours: map<CellAddress, seq<CellAddress>>)
    requires 0 <= row < width && 0 <= col < width
    requires CellsFilled(cells, width) && BoardKeys(m, width)
    ensures BoardKeys(neighbours, width)
    ensures forall a :: a in m ==> neighbours[a] == m[a] + (if a.col == col && a.row != row then [cells[row, col]] else [])
  {
    var node := cells[row, col];
    neighbours := m;
    for i := 0 to width
      invariant BoardKeys(neighbours, width)
      invariant forall a :: a in m ==> neighbours[a] == m[a] + (if a.col == col && a.row != row && a.row < i then [node] else [])
    {
      if i != row {
        var other := cells[i, col];
        neighbours := neighbours[other := neighbours[other] + [node]];
      }
    }
  }

  /** The row loop: every other cell of the row gets the node. */
  method AddToRow(cells: array2<CellAddress>, width: Int32, row: Int32, col: Int32,
                  m: map<CellAddress, seq<CellAddress>>) returns (neighbours: map<CellAddress, seq<CellAddress>>)
    requires 0 <= row < width && 0 <= col < width
    requires CellsFilled(cells, width) && BoardKeys(m, width)
    ensures BoardKeys(neighbours, width)
    ensures forall a :: a in m ==> neighbours[a] == m[a] + (if a.row == row && a.col != col then [cells[row, col]] else [])
  {
    var node := cells[row, col];
    neighbours := m;
    for j := 0 to width
      invariant BoardKeys(neighbours, width)
      invariant forall a :: a in m ==> neighbours[a] == m[a] + (if a.row == row && a.col != col && a.col < j then [node] else [])
    {
      if j != col {
        var other := cells[row, j];
        neighbours := neighbours[other := neighbours[other] + [node]];
      }
    }
  }

  /**
   * The zone loops: every cell of the node's zone outside its row and
   * column gets the node. The rows of the zone are
   * [(row / hsize) * hsize, (1 + row / hsize) * hsize), and likewise the
   * columns with wsize.
   */
  method AddToZone(cells: array2<CellAddress>, hsize: Int32, wsize: Int32, row: Int32, col: Int32,
                   m: map<CellAddress, seq<CellAddress>>) returns (neighbours: map<CellAddress, seq<CellAddress>>)
    requires hsize > 0 && wsize > 0 && IsInt32(hsize * wsize) && 0 <= row < hsize * wsize && 0 <= col < hsize * wsize
    requires CellsFilled(cells, hsize * wsize) && BoardKeys(m, hsize * wsize)
    ensures BoardKeys(neighbours, hsize * wsize)
    ensures forall a :: a in m ==> neighbours[a] == m[a] + (if ZoneOnly(hsize, wsize, a, row, col) then [cells[row, col]] else [])
  {
    var width: Int32 := hsize * wsize;
    ZoneWithinBoard(row, hsize, wsize);
    ZoneWithinBoard(col, wsize, hsize);
    var top: Int32 := (row / hsize) * hsize;
    var bottom: Int32 := (1 + row / hsize) * hsize;
    var left: Int32 := (col / wsize) * wsize;
    var right: Int32 := (1 + col / wsize) * wsize;
    ZoneRange(row, row, hsize);
    ZoneRange(col, col, wsize);
    neighbours := AddToBlock(cells, width, row, col, top, bottom, left, right, m);
    forall a | a in m
      ensures neighbours[a] == m[a] + (if ZoneOnly(hsize, wsize, a, row, col) then [cells[row, col]] else [])
    {
      assert OnBoard(width, a);
      ZoneRange(a.row, row, hsize);
      ZoneRange(a.col, col, wsize);
    }
  }

  /** A cell in the node's zone, but not in its row or column. */
  predicate ZoneOnly(hsize: int, wsize: int, a: CellAddress, row: int, col: int)
    requires hsize > 0 && wsize > 0
  {
    a.row != row && a.col != col && a.row / hsize == row / hsize && a.col / wsize == col / wsize
  }

  /** The two zone loops over the rows [top, bottom) and columns [left, right). */
  method AddToBlock(cells: array2<CellAddress>, width: Int32, row: Int32, col: Int32,
                    top: int, bottom: int, left: int, right: int,
                    m: map<CellAddress, seq<CellAddress>>) returns (neighbours: map<CellAddress, seq<CellAddress>>)
    requires 0 <= row < width && 0 <= col < width
    requires 0 <= top <= bottom <= width && 0 <= left <= right <= width
    requires CellsFilled(cells, width) && BoardKeys(m, width)
    ensures BoardKeys(neighbours, width)
    ensures forall a :: a in m ==> (neighbours[a] == m[a] +
      (if a.row != row && a.col != col && top <= a.row < bottom && left <= a.col < right then [cells[row, col]] else []))
  {
    var node := cells[row, col];
    neighbours := m;
    for i := top to bottom
      invariant BoardKeys(neighbours, width)
      invariant forall a :: a in m ==> (neighbours[a] == m[a] +
        (if a.row != row && a.col != col && top <= a.row < i && left <= a.col < right then [node] else []))
    {
      if i != row {
        neighbours := AddToZoneRow(cells, width, row, col, i, left, right, neighbours);
      }
    }
  }

  /** The innermost loop: row `i` of the node's zone, skipping the node's column. */
  method AddToZoneRow(cells: array2<CellAddress>, width: Int32, row: Int32, col: Int32, i: int,
                      left: int, right: int,
                      m: map<CellAddress, seq<CellAddress>>) returns (neighbours: map<CellAddress, seq<CellAddress>>)
    requires 0 <= row < width && 0 <= col < width && 0 <= i < width
    requires 0 <= left <= right <= width
    requires CellsFilled(cells, width) && BoardKeys(m, width)
    ensures BoardKeys(neighbours, width)
    ensures forall a :: a in m ==> (neighbours[a] == m[a] +
      (if a.row == i && a.col != col && left <= a.col < right then [cells[row, col]] else []))
  {
    var node := cells[row, col];
    neighbours := m;
    for j := left to right
      invariant BoardKeys(neighbours, width)
      invariant forall a :: a in m ==> (neighbours[a] == m[a] +
        (if a.row == i && a.col != col && left <= a.col < j then [node] else []))
    {
      if j != col {
        var other := cells[i, j];
        neighbours := neighbours[other := neighbours[other] + [node]];
      }
    }
  }

  // ------------------------------------------------------- zone arithmetic

  /** The zone of `x` spans [(x / size) * size, (1 + x / size) * size). */
  lemma ZoneRange(i: int, x: int, size: int)
    requires size > 0 && i >= 0 && x >= 0
    ensures (x / size) * size <= i < (1 + x / size) * size <==> i / size == x / size
  {
    var q := x / size;
    if q * size <= i < (1 + q) * size {
      RowMajorInjective(i / size, i % size, q, i - q * size, size);
    }
    if i / size == q {
      assert i == q * size + i % size;
    }
  }

  /** A zone of a coordinate on the board ends within the board. */
  lemma ZoneWithinBoard(x: int, size: int, count: int)
    requires size > 0 && count > 0 && 0 <= x < size * count
    ensures 0 <= (x / size) * size && (1 + x / size) * size <= size * count
    ensures IsInt32(size * count) ==> IsInt32((1 + x / size) * size)
  {
    var q := x / size;
    assert x == q * size + x % size;
    NonNegativeProduct(q, size);
    assert (count - q) * size == count * size - q * size;
    PositiveFactor(count - q, size);
    NonNegativeProduct(count - q - 1, size);
    assert (count - q - 1) * size == count * size - (1 + q) * size;
  }

  /** A positive product with a positive factor has a positive co-factor. */
  lemma PositiveFactor(k: int, s: int)
    requires s > 0
    ensures k * s > 0 ==> k > 0
  {
    if k <= 0 {
      NonNegativeProduct(-k, s);
      assert -k * s == -(k * s);
    }
  }

  // ------------------------------------------------- properties of the spec

  /** getAllNodes lists every cell of the board exactly once. */
  lemma CellsListing(w: Int32)
    requires w >= 0
    ensures |Cells(w)| == w * w
    ensures forall a :: a in Cells(w) <==> OnBoard(w, a)
    ensures Distinct(Cells(w))
  {
    RowsMembers(w, w);
    RowsDistinct(w, w);
  }

  /** ... in row-major order: cell (r, c) sits at index r * w + c. */
  lemma CellAt(w: Int32, r: int, c: int)
    requires 0 <= r < w && 0 <= c < w
    ensures r * w + c < |Cells(w)| && Cells(w)[r * w + c] == CellAddress(w, r, c)
  {
    RowsIndex(w, w, r, c);
  }

  lemma {:induction false} RowsIndex(w: Int32, n: nat, r: int, c: int)
    requires n <= w && 0 <= r < n && 0 <= c < w
    ensures r * w + c < |Rows(w, n)| && Rows(w, n)[r * w + c] == CellAddress(w, r, c)
  {
    var prev := Rows(w, n - 1);
    if r < n - 1 {
      RowsIndex(w, n - 1, r, c);
    } else {
      assert |prev| == r * w;
    }
  }

  lemma {:induction false} RowsMembers(w: Int32, n: nat)
    requires n <= w
    ensures forall x :: x in Rows(w, n) <==> x.width == w && 0 <= x.row < n && 0 <= x.col < w
  {
    if n > 0 {
      RowsMembers(w, n - 1);
      forall x: CellAddress | x.width == w && x.row == n - 1 && 0 <= x.col < w
        ensures x in Row(w, n - 1)
      {
        assert Row(w, n - 1)[x.col] == x;
      }
    }
  }

  lemma {:induction false} RowsDistinct(w: Int32, n: nat)
    requires n <= w
    ensures Distinct(Rows(w, n))
  {
    if n > 0 {
      var p := Rows(w, n - 1);
      var s := Rows(w, n);
      RowsDistinct(w, n - 1);
      RowsMembers(w, n - 1);
      forall i, j | 0 <= i < j < |s|
        ensures s[i] != s[j]
      {
        if i < |p| <= j {
          assert s[i] in p;
          assert s[j] == Row(w, n - 1)[j - |p|];
        }
      }
    }
  }

  /** The related cells of `xs` are exactly the ones the filter keeps. */
  lemma {:induction false} AdjacentMembers(hsize: int, wsize: int, a: CellAddress, xs: seq<CellAddress>)
    requires hsize > 0 && wsize > 0
    ensures forall b :: b in Adjacent(hsize, wsize, a, xs) <==> b in xs && Related(hsize, wsize, a, b)
  {
    if xs != [] {
      var init := xs[..|xs| - 1];
      AdjacentMembers(hsize, wsize, a, init);
      assert xs == init + [xs[|xs| - 1]];
    }
  }

  lemma {:induction false} AdjacentDistinct(hsize: int, wsize: int, a: CellAddress, xs: seq<CellAddress>)
    requires hsize > 0 && wsize > 0 && Distinct(xs)
    ensures Distinct(Adjacent(hsize, wsize, a, xs))
  {
    if xs != [] {
      var init := xs[..|xs| - 1];
      var last := xs[|xs| - 1];
      AdjacentDistinct(hsize, wsize, a, init);
      AdjacentMembers(hsize, wsize, a, init);
      assert last !in init;
    }
  }

  lemma {:induction false} AdjacentAppend(hsize: int, wsize: int, a: CellAddress, xs: seq<CellAddress>, ys: seq<CellAddress>)
    requires hsize > 0 && wsize > 0
    ensures Adjacent(hsize, wsize, a, xs + ys) == Adjacent(hsize, wsize, a, xs) + Adjacent(hsize, wsize, a, ys)
    decreases |ys|
  {
    if ys != [] {
      var init := ys[..|ys| - 1];
      AdjacentAppend(hsize, wsize, a, xs, init);
      assert (xs + ys)[..|xs + ys| - 1] == xs + init;
      assert (xs + ys)[|xs + ys| - 1] == ys[|ys| - 1];
    } else {
      assert xs + ys == xs;
    }
  }

  /** `b` is a neighbour of `a` exactly when it is another cell of the board sharing a row, a column or a zone. */
  lemma NeighbourMembers(hsize: Int32, wsize: Int32, a: CellAddress, b: CellAddress)
    requires hsize > 0 && wsize > 0 && IsInt32(hsize * wsize)
    ensures b in NeighbourList(hsize, wsize, a) <==> OnBoard(hsize * wsize, b) && Related(hsize, wsize, a, b)
  {
    AdjacentMembers(hsize, wsize, a, Cells(hsize * wsize));
    CellsListing(hsize * wsize);
  }

  /** A neighbour list has no repeats. */
  lemma NeighboursDistinct(hsize: Int32, wsize: Int32, a: CellAddress)
    requires hsize > 0 && wsize > 0 && IsInt32(hsize * wsize)
    ensures Distinct(NeighbourList(hsize, wsize, a))
  {
    CellsListing(hsize * wsize);
    AdjacentDistinct(hsize, wsize, a, Cells(hsize * wsize));
  }

  /** The constructed topology is well formed and counts width² nodes. */
  lemma BuiltWellFormed(t: SudokuTopology)
    requires Built(t)
    ensures t.AsTopology().WellFormed()
    ensures t.NodeCount() == t.Width() * t.Width() == |t.allNodes|
  {
    BuiltKeys(t);
    forall n, b | n in t.neighbours && b in t.neighbours[n]
      ensures b in t.neighbours
    {
      NeighbourMembers(t.hsize, t.wsize, n, b);
    }
  }

  lemma BuiltKeys(t: SudokuTopology)
    requires Built(t)
    ensures forall n :: n in t.allNodes <==> n in t.neighbours
    ensures |t.neighbours.Keys| == t.NodeCount() == t.Width() * t.Width() == |t.allNodes|
  {
    var w := t.hsize * t.wsize;
    WidthFits(t.hsize, t.wsize);
    KeysCount(t.neighbours, w);
  }

  lemma KeysCount(m: map<CellAddress, seq<CellAddress>>, w: Int32)
    requires w >= 0 && BoardKeys(m, w)
    ensures forall n :: n in Cells(w) <==> n in m
    ensures |m.Keys| == |Cells(w)| == w * w
  {
    CellsListing(w);
    assert m.Keys == set x | x in Cells(w);
    DistinctCard(Cells(w));
  }

  /** The neighbour relation of the constructed topology is symmetric. */
  lemma BuiltSymmetric(t: SudokuTopology)
    requires Built(t)
    ensures t.AsTopology().Symmetric()
  {
    forall a, b | a in t.neighbours && b in t.neighbours[a]
      ensures b in t.neighbours && a in t.neighbours[b]
    {
      NeighbourMembers(t.hsize, t.wsize, a, b);
      NeighbourMembers(t.hsize, t.wsize, b, a);
    }
  }

  /** No cell of the constructed topology is its own neighbour. */
  lemma BuiltIrreflexive(t: SudokuTopology)
    requires Built(t)
    ensures t.AsTopology().Irreflexive()
  {
    forall a | a in t.neighbours
      ensures a !in t.neighbours[a]
    {
      NeighbourMembers(t.hsize, t.wsize, a, a);
    }
  }

  // ------------------------------------------------------------- degree

  function Clamp(x: int, hi: int): int
  {
    if x < 0 then 0 else if x > hi then hi else x
  }

  function Below(x: int, n: int): int
  {
    if x < n then 1 else 0
  }

  /** How many of the first `c` cells of row `r` are related to `a`. */
  function RowPrefixCount(hsize: int, wsize: int, a: CellAddress, r: int, c: int): int
    requires hsize > 0 && wsize > 0
  {
    if r == a.row then c - Below(a.col, c)
    else if r / hsize == a.row / hsize then Clamp(c - (a.col / wsize) * wsize, wsize)
    else Below(a.col, c)
  }

  /** The number of cells among the first `c` of row `r` that are related to `a`. */
  function RelatedInRow(hsize: int, wsize: int, w: Int32, a: CellAddress, r: Int32, c: int): nat
    requires hsize > 0 && wsize > 0 && c <= INT_MAX
    decreases c
  {
    if c <= 0 then 0
    else RelatedInRow(hsize, wsize, w, a, r, c - 1) + (if Related(hsize, wsize, a, CellAddress(w, r, c - 1)) then 1 else 0)
  }

  lemma {:induction false} RowPrefix(hsize: int, wsize: int, w: Int32, a: CellAddress, r: Int32, c: nat)
    requires hsize > 0 && wsize > 0 && 0 <= r < w && c <= w
    ensures |Adjacent(hsize, wsize, a, Row(w, r)[..c])| == RelatedInRow(hsize, wsize, w, a, r, c)
  {
    if c > 0 {
      RowPrefix(hsize, wsize, w, a, r, c - 1);
      RowSnoc(hsize, wsize, w, a, r, c);
    } else {
      assert Row(w, r)[..0] == [];
    }
  }

  /** The closed form of the count along a row. */
  lemma {:induction false} RowCountClosed(hsize: int, wsize: int, a: CellAddress, r: Int32, c: nat)
    requires hsize > 0 && wsize > 0 && a.row >= 0 && a.col >= 0 && r >= 0 && c <= INT_MAX
    ensures RelatedInRow(hsize, wsize, a.width, a, r, c) == RowPrefixCount(hsize, wsize, a, r, c)
  {
    if c > 0 {
      RowCountClosed(hsize, wsize, a, r, c - 1);
      RowStep(hsize, wsize, a, r, c - 1);
    }
  }

  lemma RowSnoc(hsize: int, wsize: int, w: Int32, a: CellAddress, r: Int32, c: Int32)
    requires hsize > 0 && wsize > 0 && 0 <= r < w && 0 < c <= w
    ensures |Adjacent(hsize, wsize, a, Row(w, r)[..c])|
            == |Adjacent(hsize, wsize, a, Row(w, r)[..c - 1])| + (if Related(hsize, wsize, a, CellAddress(w, r, c - 1)) then 1 else 0)
  {
    var cell := CellAddress(w, r, c - 1);
    assert Row(w, r)[..c] == Row(w, r)[..c - 1] + [cell];
    AdjacentSnoc(hsize, wsize, Row(w, r)[..c - 1], cell);
  }

  /** Column `c` of row `r` adds one to the count exactly when that cell is related to `a`. */
  lemma RowStep(hsize: int, wsize: int, a: CellAddress, r: Int32, c: Int32)
    requires hsize > 0 && wsize > 0 && a.row >= 0 && a.col >= 0 && r >= 0 && c >= 0
    ensures RowPrefixCount(hsize, wsize, a, r, c + 1)
            == RowPrefixCount(hsize, wsize, a, r, c) + (if Related(hsize, wsize, a, CellAddress(a.width, r, c)) then 1 else 0)
  {
    ZoneRange(c, a.col, wsize);
    assert (1 + a.col / wsize) * wsize == (a.col / wsize) * wsize + wsize;
  }

  /** How many cells of the first `n` rows are related to `a`. */
  function RowsCount(hsize: int, wsize: int, a: CellAddress, n: int): int
    requires hsize > 0 && wsize > 0
  {
    var band := Clamp(n - (a.row / hsize) * hsize, hsize);
    var own := Below(a.row, n);
    (n - band) + (band - own) * wsize + own * (hsize * wsize - 1)
  }

  /** The number of cells in the first `n` rows that are related to `a`. */
  function RelatedInRows(hsize: int, wsize: int, w: Int32, a: CellAddress, n: int): nat
    requires hsize > 0 && wsize > 0 && n <= w
    decreases n
  {
    if n <= 0 then 0
    else RelatedInRows(hsize, wsize, w, a, n - 1) + RelatedInRow(hsize, wsize, w, a, (n - 1) as Int32, w)
  }

  lemma {:induction false} RowsPrefix(hsize: int, wsize: int, w: Int32, a: CellAddress, n: nat)
    requires hsize > 0 && wsize > 0 && n <= w
    ensures |Adjacent(hsize, wsize, a, Rows(w, n))| == RelatedInRows(hsize, wsize, w, a, n)
  {
    if n > 0 {
      var r := n - 1;
      RowsPrefix(hsize, wsize, w, a, r);
      assert Rows(w, n) == Rows(w, r) + Row(w, r);
      AdjacentAppend(hsize, wsize, a, Rows(w, r), Row(w, r));
      RowPrefix(hsize, wsize, w, a, r as Int32, w);
      assert Row(w, r)[..w] == Row(w, r);
    }
  }

  /** The closed form of the count over whole rows. */
  lemma {:induction false} RowsClosed(hsize: int, wsize: int, a: CellAddress, n: nat)
    requires hsize > 0 && wsize > 0 && OnBoard(hsize * wsize, a) && n <= a.width
    ensures RelatedInRows(hsize, wsize, a.width, a, n) == RowsCount(hsize, wsize, a, n)
  {
    if n > 0 {
      RowsClosed(hsize, wsize, a, n - 1);
      RowsClosedStep(hsize, wsize, a, n);
    }
  }

  lemma RowsClosedStep(hsize: int, wsize: int, a: CellAddress, n: nat)
    requires hsize > 0 && wsize > 0 && OnBoard(hsize * wsize, a) && 0 < n <= a.width
    requires RelatedInRows(hsize, wsize, a.width, a, n - 1) == RowsCount(hsize, wsize, a, n - 1)
    ensures RelatedInRows(hsize, wsize, a.width, a, n) == RowsCount(hsize, wsize, a, n)
  {
    var r := n - 1;
    RowCountClosed(hsize, wsize, a, r as Int32, a.width);
    RowsStep(hsize, wsize, a, r, n);
  }

  /** Row `r` adds w - 1 related cells when it is `a`'s row, wsize when it crosses `a`'s zone, 1 otherwise. */
  lemma RowsStep(hsize: int, wsize: int, a: CellAddress, r: int, n: int)
    requires hsize > 0 && wsize > 0 && OnBoard(hsize * wsize, a) && 0 <= r < hsize * wsize && n == r + 1
    ensures RowsCount(hsize, wsize, a, n) == RowsCount(hsize, wsize, a, r) + RowPrefixCount(hsize, wsize, a, r, hsize * wsize)
  {
    ZoneWithinBoard(a.col, wsize, hsize);
    assert (1 + a.col / wsize) * wsize == (a.col / wsize) * wsize + wsize;
    ZoneRange(r, a.row, hsize);
    assert (1 + a.row / hsize) * hsize == (a.row / hsize) * hsize + hsize;
    var band := Clamp(r - (a.row / hsize) * hsize, hsize);
    var own := Below(a.row, r);
    assert (band + 1 - own) * wsize == (band - own) * wsize + wsize;
  }

  /** Every neighbour list has 2(width - 1) + (hsize - 1)(wsize - 1) entries. */
  lemma Degree(hsize: Int32, wsize: Int32, a: CellAddress)
    requires hsize > 0 && wsize > 0 && IsInt32(hsize * wsize) && OnBoard(hsize * wsize, a)
    ensures |NeighbourList(hsize, wsize, a)| == 2 * (hsize * wsize - 1) + (hsize - 1) * (wsize - 1)
  {
    var w: Int32 := hsize * wsize;
    RowsPrefix(hsize, wsize, w, a, w);
    RowsClosed(hsize, wsize, a, w);
    RowsCountTotal(hsize, wsize, a);
  }

  /** Over the whole board: w - h rows outside a's band, h - 1 other rows of the band, and a's own row. */
  lemma RowsCountTotal(hsize: int, wsize: int, a: CellAddress)
    requires hsize > 0 && wsize > 0 && OnBoard(hsize * wsize, a)
    ensures RowsCount(hsize, wsize, a, hsize * wsize) == 2 * (hsize * wsize - 1) + (hsize - 1) * (wsize - 1)
  {
    ZoneWithinBoard(a.row, hsize, wsize);
    assert (1 + a.row / hsize) * hsize == (a.row / hsize) * hsize + hsize;
    assert (hsize - 1) * (wsize - 1) == (hsize - 1) * wsize - hsize + 1;
  }
}
