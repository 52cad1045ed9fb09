# Sudoku as graph colouring — a Dafny model

The Sudoku repository solves a puzzle by colouring a graph. The cells
are the nodes, and cells that share a row, a column or a zone are
neighbours. The numbers 1..width are the colours, and no two neighbours
may share a colour. The solver is a backtracking search: at each level
it copies the graph and colours the uncoloured cell that has the fewest
candidate colours. A small text format reads and writes boards, and a
pretty-printer draws them.

This project models that core in Dafny and proves properties of the
model. Most modules model one Java class. `SolverSearch` holds the pure
specification of the solver's search, `Topologies` stands for the
`GraphTopology` interface, and `JavaPlatform` models the library
behaviour the code relies on. The other Java interfaces become datatypes
or parameters.

**The colouring engine**

| Module | Models |
|---|---|
| `ColourConstraints` | The two constraints (`Vacuous`, `UnalikeNeighbours`) as one tagged datatype. Also the read-only queries the constraints make of a colouring. A Java `null` colour is `None`. |
| `ColourableGraphs` | `ColourableGraphImpl`, as the class `ColourableGraph`. It has the colour map and the two caches as fields. Its invariant `Valid()` says that every cached entry equals a fresh recomputation from the current colours. `GraphState` is a snapshot of everything the graph's behaviour depends on. |
| `Backtracking` | `BacktrackableImpl`. The fake ordering is an index map. The `TreeMap` is a sequence of entries kept sorted by the comparator, and `Put` inserts into it. |
| `SolverSearch` | What `Solver.solve` computes, as a pure recursive function `Search` of the puzzle's state. The result is the solutions, the notices fired and the final step count. The proofs of soundness, properness, completeness and step counting are lemmas about this function. |
| `Solvers` | `Solver` and `SolverEventHub` as classes. Listener callbacks are foreign code, so they are not run: each `fire*` call is recorded in the hub's `log` with the deliveries it makes. The solver's methods are proved equal to `Search`. |

**Topologies and small value types**

| Module | Models |
|---|---|
| `Topologies` | `GraphTopology`: a node list, a neighbour map and a node count. |
| `SudokuTopologies` | `SudokuTopology`. The constructor's nested loops fill a `cells` array and a neighbour map. |
| `CartesianProducts` | `CartesianProductGraphTopology`. |
| `Polygons` | `Polygon`. |
| `ModularArithmetic` | `ModularArithmetic.remainder`. |
| `PaintByNumber` | The `PaintByNumber` colour space. |
| `Pairs` | `Pair`. |
| `SudokuCellAddresses` | `SudokuCellAddress`. |
| `SudokuBoards` | `SudokuBoard`: a graph over the Sudoku topology, with the numbers 1..width as colours and the unalike-neighbours constraint, but with checking turned off. |

The one-argument constructors `SudokuTopology(size)` and
`SudokuBoard(size)` delegate to `(size, size)`. In the model they are the
two-argument `New` applied to `(size, size)`.

**The board text format**

| Module | Models |
|---|---|
| `GameBoardReaders` | `GameBoardReader`. Its input is the sequence of lines `readLine` returns. |
| `GameBoardReaderExceptions` | `GameBoardReaderException`: its constructor chain, and `getMessage` building the text in a local `Appender` class. |
| `GameBoardWriters` | `GameBoardWriter`. Its output is the text printed. |
| `SudokuFormatters` | `SudokuFormatter`. |

`JavaPlatform` models the parts of the Java library the code relies on:

- 32-bit ints and wrap-around;
- the truncating `/` and `%` operators;
- `Integer.toString` and `Integer.parseInt`;
- `String.trim` and `StringTokenizer`;
- splitting text into lines.

`Wrappers` holds `Option` and `Result`. A thrown exception is an `Err`
value.

Deliberate choices:

- **Setting a null colour.** `setColour(n, null)` stores a `None` entry. The entry counts towards `isComplete`, reads back as uncoloured, and is dropped by `copyOf`.
- **Zero-candidate nodes.** `getUnvaluedNodesSorted` drops uncoloured nodes that have no candidate. As a result, the solver reports "no solution" only when no uncoloured node has a candidate.
- **Coloured nodes.** `getPossibleColoursForNode` does not throw for a node that is already coloured, although the interface's documentation says it does. The model follows the code.
- **`Pair.equals`.** It compares its components by reference (`==`).

## Model

| member | source | states |
|---|---|---|
| ColourConstraints.Check | src/gtf/math/graph/UnalikeNeighboursColourConstraint.java:28-39 | A null colour always passes the unalike check, and a non-null unalike check fails only on an address the topology does not know. The vacuous constraint (VacuousColourConstraint.java, lines 19-21) passes every graph, node and colour. |
| ColourConstraints.UnalikeMeansNoNeighbourHasIt | src/gtf/math/graph/UnalikeNeighboursColourConstraint.java:32-38 | A non-null colour passes exactly when no neighbour of the node currently has it. |
| ColourConstraints.CheckIgnoresOwnColour | src/gtf/math/graph/UnalikeNeighboursColourConstraint.java:32-37 | Recolouring the node itself never changes a check on it, unless the node is its own neighbour. |
| ColourConstraints.NeighbourColoursMembers | src/gtf/math/graph/impl/ColourableGraphImpl.java:119-132 | A colour is among the neighbour colours iff some neighbour has it; null colours never appear. |
| ColourableGraphs.PossibleAmong | src/gtf/math/graph/impl/ColourableGraphImpl.java:154-166 | The filter fails only on an unknown address under a consulting check. Under the vacuous constraint it is the whole colour list, in order. Otherwise the result is a sub-list of the space. |
| ColourableGraphs.UnalikePossibleColours | src/gtf/math/graph/UnalikeNeighboursColourConstraint.java:32-38 | Under the unalike constraint, the possible colours are exactly the colours of the space that no neighbour has. |
| ColourableGraphs.SetColourSpec | src/gtf/math/graph/impl/ColourableGraphImpl.java:101-110 | With checking off, setColour never fails. With checking on, it succeeds iff the constraint check is true, and otherwise raises ColourConstraintViolation. On success the node reads back the colour and nothing else in the state changes. |
| ColourableGraphs.SetColourLeavesOthers | src/gtf/math/graph/impl/ColourableGraphImpl.java:101-104 | A successful setColour leaves every other node's colour and entry unchanged. |
| ColourableGraphs.CopyColours | src/gtf/math/graph/impl/ColourableGraphImpl.java:171-181 | The copy has the same topology, space, constraint and flag. It has the non-null colours of the topology's nodes and no other entries, so null entries are dropped. |
| ColourableGraphs.ColourableGraph.Unconstrained | src/gtf/math/graph/impl/ColourableGraphImpl.java:53-55 | The two-argument constructor installs the vacuous constraint with checking off, no colours and empty caches. |
| ColourableGraphs.ColourableGraph.Constrained | src/gtf/math/graph/impl/ColourableGraphImpl.java:64-66 | The three-argument constructor turns checking on. |
| ColourableGraphs.ColourableGraph.constructor | src/gtf/math/graph/impl/ColourableGraphImpl.java:77-86 | For a non-negative node count, the full constructor stores its arguments, starts with no colours and empty caches, and establishes the cache invariant. |
| ColourableGraphs.ColourableGraph.GetColour | src/gtf/math/graph/impl/ColourableGraphImpl.java:138-140 | A colour read returns exactly the stored entry, including a stored null. A missing entry reads as null. |
| ColourableGraphs.ColourableGraph.GetNeighbourColours | src/gtf/math/graph/impl/ColourableGraphImpl.java:119-132 | The result is the fresh set of the neighbours' non-null colours, whether or not it came from the cache. An unknown node fails and keeps the cache. The cache invariant is kept. |
| ColourableGraphs.ColourableGraph.CheckConstraint | src/gtf/math/graph/impl/ColourableGraphImpl.java:102 | The constraint's check on this graph equals `Check` on its current colours. It may only fill the neighbour cache. |
| ColourableGraphs.ColourableGraph.SetColour | src/gtf/math/graph/impl/ColourableGraphImpl.java:101-110 | It succeeds exactly when `SetColourSpec` does. On success the new state is the spec's and both caches are empty. On failure the colours and the possible-colours cache are unchanged. The check may already have filled the neighbour-colours cache. The cache invariant is kept. |
| ColourableGraphs.ColourableGraph.GetPossibleColours | src/gtf/math/graph/impl/ColourableGraphImpl.java:154-166 | The result equals the fresh filter of the colour space, cached or not. It does not throw for a coloured node. The invariant is kept. |
| ColourableGraphs.ColourableGraph.CopyOf | src/gtf/math/graph/impl/ColourableGraphImpl.java:171-181 | The copy is a fresh object, so later changes to either graph do not reach the other. Its state is `Copy` of this one's and its caches are empty. |
| Backtracking.FakeOrdering | src/gtf/puzzle/engine/BacktrackableImpl.java:53-58 | Every listed node gets an index, and each index points back at its node in the list. |
| Backtracking.FakeOrderingIsIndex | src/gtf/puzzle/engine/BacktrackableImpl.java:53-58 | On a list without repeats, the i-th node is mapped to i. |
| Backtracking.FakeOrderingInjective | src/gtf/puzzle/engine/BacktrackableImpl.java:53-58 | Distinct nodes get distinct indices. |
| Backtracking.CompareIsTotalOrder | src/gtf/puzzle/engine/BacktrackableImpl.java:66-79 | The comparator returns 0 only for the same node, and it is antisymmetric and transitive, so no eligible node is lost from the TreeMap. |
| Backtracking.Put | src/gtf/puzzle/engine/BacktrackableImpl.java:85 | TreeMap.put keeps every other key and adds the new entry. Every resulting entry is the new one or an old one. |
| Backtracking.PutKeepsSorted | src/gtf/puzzle/engine/BacktrackableImpl.java:65-85 | Inserting keeps the keys in strictly ascending comparator order. |
| Backtracking.Unvalued | src/gtf/puzzle/engine/BacktrackableImpl.java:81-88 | The keys are exactly the listed uncoloured nodes that have a candidate, each mapped to its candidate list. |
| Backtracking.UnvaluedSorted | src/gtf/puzzle/engine/BacktrackableImpl.java:81-88 | The loop's result is sorted by the comparator. |
| Backtracking.UnvaluedNodesSortedSpec | src/gtf/puzzle/engine/BacktrackableImpl.java:64-90 | The keys are exactly the eligible nodes, each once, each with its candidates. They are in ascending order of candidate count, and then of position. |
| Backtracking.FirstKeyIsBest | src/gtf/puzzle/engine/BacktrackableImpl.java:72-77 | The first key has the fewest candidates, and among nodes with that many candidates it is the earliest. |
| Backtracking.Backtrackable.constructor | src/gtf/puzzle/engine/BacktrackableImpl.java:38-43 | The constructor keeps the graph and computes the fake ordering of its node list. |
| Backtracking.Backtrackable.ComputeFakeOrdering | src/gtf/puzzle/engine/BacktrackableImpl.java:53-58 | The loop with its running counter builds exactly `FakeOrdering` of the node list. |
| Backtracking.Backtrackable.GetUnvaluedNodesSorted | src/gtf/puzzle/engine/BacktrackableImpl.java:64-90 | The result is `UnvaluedNodesSorted` of the graph's state. No colour changes, and the cache invariant is kept. |
| SolverSearch.CandidateAccepted | src/gtf/puzzle/engine/Solver.java:100-102 | setColour on a copy accepts a candidate value, whether or not the copy checks its constraint. |
| SolverSearch.Child | src/gtf/puzzle/engine/Solver.java:101-102 | The child has the puzzle's parameters and the tried value at the best square. |
| SolverSearch.ChildColours | src/gtf/puzzle/engine/Solver.java:101-102 | The child has the puzzle's colour at every other topology node and no other entry. |
| SolverSearch.SearchDeadEnd | src/gtf/puzzle/engine/Solver.java:92-97 | For an incomplete puzzle with no branchable node, the result is no solution, "invoked" then "no solution", and an unchanged step count. |
| SolverSearch.SearchBranches | src/gtf/puzzle/engine/Solver.java:98-107 | Otherwise the solver branches on the first key's candidates after "invoked", and adds one step after all branches. |
| SolverSearch.BranchStep | src/gtf/puzzle/engine/Solver.java:100-106 | Each value adds "tried cell" for its child immediately before the child's recursion one level deeper. The child's solutions are appended. |
| SolverSearch.CleanCompleteness | src/gtf/math/graph/impl/ColourableGraphImpl.java:146-148 | For a copied graph (topology nodes only, no null entries), complete means every topology node is coloured. |
| SolverSearch.SearchSound | src/gtf/puzzle/engine/Solver.java:87-107 | Every returned graph is complete and keeps every colour the input had. When the input was incomplete, every node of a returned graph is coloured. |
| SolverSearch.ChildProper | src/gtf/puzzle/engine/Solver.java:101-102 | Under the unalike constraint, colouring a node with a candidate keeps a colouring proper. |
| SolverSearch.SearchProper | src/gtf/puzzle/engine/Solver.java:87-107 | Under the unalike constraint on a symmetric, irreflexive topology, a proper puzzle has only proper solutions. |
| SolverSearch.CompletionIsCandidate | src/gtf/puzzle/engine/BacktrackableImpl.java:81-85 | Every proper completion colours each uncoloured node with one of its candidates. |
| SolverSearch.SearchComplete | src/gtf/puzzle/engine/Solver.java:87-107 | Under the unalike constraint, every proper completion of a clean puzzle is among the returned solutions. |
| SolverSearch.SearchDepths | src/gtf/puzzle/engine/Solver.java:83-109 | A frame at depth d fires events only at depths d to d + (its uncoloured node count), because each level down colours one more node. |
| SolverSearch.BranchDepths | src/gtf/puzzle/engine/Solver.java:100-106 | The value loop's "tried cell" events are at depth d, and its recursive calls stay within the same bound. |
| SolverSearch.SearchDepthBound | src/gtf/puzzle/engine/Solver.java:79-109 | From the top-level call at depth 0, every event's depth lies between 0 and the topology's node count. |
| SolverSearch.SearchCounts | src/gtf/puzzle/engine/Solver.java:85-107 | The counter grows by one per frame that branched, there is one "found solution" per solution, and each frame fires "invoked" first. |
| Solvers.Deliveries | src/gtf/puzzle/engine/SolverEventHub.java:36-59 | A fire call makes one callback per listener, in list order. Each event has the solver as its source plus the notice's puzzle, depth, steps, node and value. |
| Solvers.CallsOfTag | src/gtf/puzzle/engine/SolverEventHub.java:36-59 | Notices fired while the list stays the same reach every listener, notice after notice, in list order. |
| Solvers.IndexOf | src/gtf/puzzle/engine/SolverEventHub.java:32-34 | The result is the position of the first occurrence, or the length when there is none. |
| Solvers.RemoveFirstMultiset | src/gtf/puzzle/engine/SolverEventHub.java:32-34 | remove takes away exactly one occurrence when there is one, and otherwise nothing. |
| Solvers.SolverEventHub.constructor | src/gtf/puzzle/engine/SolverEventHub.java:23-26 | The hub starts with the solver as event source, no listeners and nothing fired. |
| Solvers.SolverEventHub.AddListener | src/gtf/puzzle/engine/SolverEventHub.java:28-30 | The listener is appended; duplicates are allowed. |
| Solvers.SolverEventHub.RemoveListener | src/gtf/puzzle/engine/SolverEventHub.java:32-34 | Only the first equal listener is removed, and nothing happens if it is absent. |
| Solvers.SolverEventHub.Dispatch | src/gtf/puzzle/engine/SolverEventHub.java:37-39 | The loop logs one callback per listener, in order, and leaves the list unchanged. |
| Solvers.SolverEventHub.FireInvoked | src/gtf/puzzle/engine/SolverEventHub.java:36-40 | It logs an "invoked" event with no node and no value. |
| Solvers.SolverEventHub.FireFoundSolution | src/gtf/puzzle/engine/SolverEventHub.java:42-46 | It logs a "found solution" event with no node and no value. |
| Solvers.SolverEventHub.FireNoSolution | src/gtf/puzzle/engine/SolverEventHub.java:48-52 | It logs a "no solution" event with no node and no value. |
| Solvers.SolverEventHub.FireTriedCell | src/gtf/puzzle/engine/SolverEventHub.java:54-59 | It logs a "tried cell" event that carries the node and the value. |
| Solvers.Solver.constructor | src/gtf/puzzle/engine/Solver.java:53-59 | A solver starts at zero steps with a fresh hub whose source is itself. |
| Solvers.Solver.AddListener | src/gtf/puzzle/engine/Solver.java:61-63 | It forwards to the hub's append. |
| Solvers.Solver.RemoveListener | src/gtf/puzzle/engine/Solver.java:65-67 | It forwards to the hub's remove-first. |
| Solvers.Solver.Solve | src/gtf/puzzle/engine/Solver.java:79-81 | Solutions, steps and every listener callback are those of `Search` from depth 0. The puzzle keeps its colours. |
| Solvers.Solver.SolveAt | src/gtf/puzzle/engine/Solver.java:83-109 | The solutions, steps and fire calls equal `Search` at this depth. The puzzle is never modified. |
| Solvers.Solver.Descend | src/gtf/puzzle/engine/Solver.java:92-108 | For an incomplete puzzle, the rest of the frame equals `Search`. |
| Solvers.Solver.DeadEnd | src/gtf/puzzle/engine/Solver.java:94-97 | With no square to try, it fires "no solution" and returns nothing. |
| Solvers.Solver.BranchOn | src/gtf/puzzle/engine/Solver.java:98-108 | It runs the branch loop, then adds one step. |
| Solvers.Solver.TryValues | src/gtf/puzzle/engine/Solver.java:100-106 | The loop over the allowed values equals `Branch`. |
| Solvers.Solver.NextValue | src/gtf/puzzle/engine/Solver.java:100-106 | One iteration extends `Branch` by one value. |
| Solvers.Solver.CopyWith | src/gtf/puzzle/engine/Solver.java:101-102 | The result is a fresh copy holding the child state. |
| Solvers.Solver.TryValue | src/gtf/puzzle/engine/Solver.java:101-105 | It fires "tried cell" for the child, then the recursion on the child one level deeper. |
| Topologies.Topology.Neighbours | src/gtf/math/graph/GraphTopology.java:21 | The stored list for a known node; an unknown node throws. |
| SudokuTopologies.SudokuTopology.Width | src/gtf/puzzle/sudoku/graph/SudokuTopology.java:110-112 | The width is hsize * wsize whenever that fits in an int. |
| SudokuTopologies.SudokuTopology.NodeCount | src/gtf/puzzle/sudoku/graph/SudokuTopology.java:114-116 | The node count is width² whenever it fits in an int. |
| SudokuTopologies.SudokuTopology.Neighbours | src/gtf/puzzle/sudoku/graph/SudokuTopology.java:122-124 | The stored list of a board cell; any other address throws. |
| SudokuTopologies.New | src/gtf/puzzle/sudoku/graph/SudokuTopology.java:52-100 | A zone width ≤ 0 is rejected first, then a zone height ≤ 0, each with its message. Otherwise the constructed topology is `Built`: row-major cells, and each cell's neighbours are its related cells in row-major order. |
| SudokuTopologies.CreateCells | src/gtf/puzzle/sudoku/graph/SudokuTopology.java:64-71 | The first loops fill the array with every address, list all cells row-major, and give each an empty list. |
| SudokuTopologies.CreateRow | src/gtf/puzzle/sudoku/graph/SudokuTopology.java:65-70 | One row's cells are appended, given array slots and empty lists. Other rows are unchanged. |
| SudokuTopologies.AddAll | src/gtf/puzzle/sudoku/graph/SudokuTopology.java:72-99 | After the second loops, each list is the related cells in row-major order. |
| SudokuTopologies.AddRow | src/gtf/puzzle/sudoku/graph/SudokuTopology.java:73-98 | One more row extends every list by its related cells in that row. |
| SudokuTopologies.AddNode | src/gtf/puzzle/sudoku/graph/SudokuTopology.java:74-97 | A cell is appended to exactly the lists of the cells it is related to. |
| SudokuTopologies.AddToColumn | src/gtf/puzzle/sudoku/graph/SudokuTopology.java:76-80 | It is appended to every other cell of its column. |
| SudokuTopologies.AddToRow | src/gtf/puzzle/sudoku/graph/SudokuTopology.java:82-86 | It is appended to every other cell of its row. |
| SudokuTopologies.AddToZone | src/gtf/puzzle/sudoku/graph/SudokuTopology.java:89-97 | It is appended to the cells of its zone outside its row and column. |
| SudokuTopologies.AddToBlock | src/gtf/puzzle/sudoku/graph/SudokuTopology.java:89-97 | The zone loops over a rectangle skip the node's row and column. |
| SudokuTopologies.AddToZoneRow | src/gtf/puzzle/sudoku/graph/SudokuTopology.java:91-95 | The innermost loop skips the node's column. |
| SudokuTopologies.ZoneRange | src/gtf/puzzle/sudoku/graph/SudokuTopology.java:89 | The zone loop's bounds select exactly the rows with the same `row / hsize`. |
| SudokuTopologies.CellsListing | src/gtf/puzzle/sudoku/graph/SudokuTopology.java:64-71 | getAllNodes lists each of the width² cells exactly once. |
| SudokuTopologies.CellAt | src/gtf/puzzle/sudoku/graph/SudokuTopology.java:64-71 | The list is in row-major order: cell (r, c) is at index r * w + c. |
| SudokuTopologies.NeighbourMembers | src/gtf/puzzle/sudoku/graph/SudokuTopology.java:72-99 | b is a neighbour of a iff b is another board cell that shares a row, a column or a zone with a. |
| SudokuTopologies.NeighboursDistinct | src/gtf/puzzle/sudoku/graph/SudokuTopology.java:76-97 | Neighbour lists have no duplicates. |
| SudokuTopologies.BuiltWellFormed | src/gtf/puzzle/sudoku/graph/SudokuTopology.java:64-116 | The built topology is well formed, and its node count is width² and the list's length. |
| SudokuTopologies.BuiltSymmetric | src/gtf/puzzle/sudoku/graph/SudokuTopology.java:72-99 | The neighbour relation is symmetric. |
| SudokuTopologies.BuiltIrreflexive | src/gtf/puzzle/sudoku/graph/SudokuTopology.java:77-92 | No cell is its own neighbour. |
| SudokuTopologies.Degree | src/gtf/puzzle/sudoku/graph/SudokuTopology.java:76-97 | Every list has 2(width − 1) + (hsize − 1)(wsize − 1) entries. |
| SudokuTopologies.RowsCountTotal | src/gtf/puzzle/sudoku/graph/SudokuTopology.java:76-97 | The related cells of all rows add up to that closed form. |
| CartesianProducts.CartesianProduct.Neighbours | src/gtf/math/graph/impl/CartesianProductGraphTopology.java:66-68 | A key's list; a non-key throws NullPointerException. |
| CartesianProducts.ProductNeighbours | src/gtf/math/graph/impl/CartesianProductGraphTopology.java:47-54 | The neighbour count of (t, u) is \|N(t)\| + \|N(u)\|. |
| CartesianProducts.New | src/gtf/math/graph/impl/CartesianProductGraphTopology.java:31-37 | The node count is the int product of the factors' counts. A negative product throws IllegalArgumentException("Illegal initial capacity: n") from the map's construction, before any lookup. Otherwise construction fails with NullPointerException exactly when a factor node has no list. Otherwise there is one key per pair of listed nodes, holding [(tn, u)] ++ [(t, un)] in that order. |
| CartesianProducts.Populate | src/gtf/math/graph/impl/CartesianProductGraphTopology.java:42-60 | The nested loops leave exactly the product map. |
| CartesianProducts.PopulateRow | src/gtf/math/graph/impl/CartesianProductGraphTopology.java:45-57 | The inner loop adds the keys (t, u) for every u and keeps the earlier keys. |
| CartesianProducts.ProductList | src/gtf/math/graph/impl/CartesianProductGraphTopology.java:47-54 | The two list loops produce the x-neighbours paired with u, then t paired with the y-neighbours. |
| CartesianProducts.ProductSymmetric | src/gtf/math/graph/impl/CartesianProductGraphTopology.java:42-60 | The product of symmetric topologies is symmetric. |
| CartesianProducts.ProductIrreflexive | src/gtf/math/graph/impl/CartesianProductGraphTopology.java:42-60 | The product of irreflexive topologies is irreflexive. |
| CartesianProducts.NodeCountIsKeyCount | src/gtf/math/graph/impl/CartesianProductGraphTopology.java:34-64 | The number of keys is the product of the node counts, which getNodeCount reports when it fits in an int. |
| Polygons.Polygon.NodeCount | src/gtf/math/graph/impl/Polygon.java:63-65 | getNodeCount is the size given to the constructor. |
| Polygons.Polygon.Neighbours | src/gtf/math/graph/impl/Polygon.java:50-57 | Size 0 divides by zero. Otherwise there are always two entries, both in [0, n): for a node of the cycle, its predecessor and successor. |
| Polygons.CycleSteps | src/gtf/math/graph/impl/Polygon.java:51-52 | remainder(i − 1, n) and remainder(i + 1, n) are the cyclic predecessor and successor of 0 ≤ i < n. |
| Polygons.ListSet | src/gtf/math/graph/impl/Polygon.java:35 | List.set fails outside the list and otherwise replaces exactly one element. |
| Polygons.New | src/gtf/math/graph/impl/Polygon.java:28-37 | A negative size is rejected. Size 0 builds the empty polygon. Every positive size fails with IndexOutOfBoundsException. |
| Polygons.NewIntended | src/gtf/math/graph/impl/Polygon.java:28-37 | With `add` instead of `set`, the node list is 0..size−1. |
| Polygons.IntendedWellFormed | src/gtf/math/graph/impl/Polygon.java:43-65 | The intended polygon is a well-formed topology with size nodes. |
| Polygons.IntendedSymmetric | src/gtf/math/graph/impl/Polygon.java:50-57 | Its neighbour relation is symmetric. |
| Polygons.IntendedIrreflexive | src/gtf/math/graph/impl/Polygon.java:50-57 | It has no self-loop exactly when size ≥ 2. |
| ModularArithmetic.Remainder | src/gtf/math/algebra/ModularArithmetic.java:28-34 | b = 0 throws ArithmeticException. For b > 0, 0 ≤ r < b; for b < 0, b < r ≤ 0. b divides a − r. The result is Java's a % b when that is zero or already has b's sign. |
| ModularArithmetic.RemainderOutsideDocumentedRange | src/gtf/math/algebra/ModularArithmetic.java:24-25 | remainder(−1, 3) = 2, which is outside the documented range 0..a. |
| JavaPlatform.JavaRem | src/gtf/math/algebra/ModularArithmetic.java:29 | Java's % truncates: the remainder takes the dividend's sign, and (a / b) * b + a % b = a. |
| PaintByNumber.New | src/gtf/math/types/PaintByNumber.java:21-30 | A range < 1 throws. Otherwise the values are 1..range in ascending order. |
| PaintByNumber.ColoursDistinctInRange | src/gtf/math/types/PaintByNumber.java:26-46 | getNumberOfColours equals the list's length. The colours are strictly ascending, and c is a colour iff 1 ≤ c ≤ range. |
| Pairs.Equals | src/gtf/math/types/Pair.java:29-35 | It is false for null and for a non-Pair. Otherwise it holds iff both components are the same references. |
| Pairs.HashCode | src/gtf/math/types/Pair.java:25-27 | The result is the xor of the components' hash codes; a null component throws. |
| Pairs.EqualsConsistentWithHashCode | src/gtf/math/types/Pair.java:25-35 | equals is reflexive, symmetric and transitive, and equal pairs hash alike. |
| SudokuCellAddresses.New | src/gtf/puzzle/sudoku/graph/SudokuCellAddress.java:21-36 | It succeeds iff width > 0 and row and col are in [0, width). The accessors return the arguments; otherwise the exact message is thrown. |
| SudokuCellAddresses.Equals | src/gtf/puzzle/sudoku/graph/SudokuCellAddress.java:48-55 | equals holds iff the other object is an address with the same width, row and column. |
| SudokuCellAddresses.EqualsIsIdentity | src/gtf/puzzle/sudoku/graph/SudokuCellAddress.java:48-55 | equals coincides with value equality of addresses. |
| SudokuCellAddresses.HashCodeRangeInjective | src/gtf/puzzle/sudoku/graph/SudokuCellAddress.java:57-59 | On board cells, hashCode = row * width + col, it lies in [0, width²), and it is injective. |
| SudokuCellAddresses.ToStringDeterminesCell | src/gtf/puzzle/sudoku/graph/SudokuCellAddress.java:38-46 | The "[row=R, col=C]" text determines the row and the column. |
| SudokuBoards.ValueAt | src/gtf/puzzle/sudoku/graph/SudokuBoard.java:70-72 | getValue throws exactly for an off-board row or column; an unset cell reads null. |
| SudokuBoards.ValueAtStored | src/gtf/puzzle/sudoku/graph/SudokuBoard.java:59-72 | After storing v at (r, c), that cell reads v and every other cell reads as before. |
| SudokuBoards.SudokuBoard.Wire | src/gtf/puzzle/sudoku/graph/SudokuBoard.java:35-41 | The graph has the topology, the colours 1..width, the unalike constraint, checking off, and no colours. |
| SudokuBoards.SudokuBoard.New | src/gtf/puzzle/sudoku/graph/SudokuBoard.java:34-42 | The topology's refusals come first. A board that is built keeps its zone sizes and starts with every cell empty. |
| SudokuBoards.SudokuBoard.SetCell | src/gtf/puzzle/sudoku/graph/SudokuBoard.java:59-61 | An off-board address throws. Any value is stored, including null, out-of-range and clashing values. The cell reads it back, and the other cells are unchanged. |
| GameBoardReaderExceptions.ConstructorChain | src/gtf/puzzle/sudoku/io/GameBoardReaderException.java:5-28 | Shorter constructors leave row and col at −1 and the token null. |
| GameBoardReaderExceptions.Appender.AppendVar | src/gtf/puzzle/sudoku/io/GameBoardReaderException.java:38-44 | It appends "[name=value] ". |
| GameBoardReaderExceptions.GetMessage | src/gtf/puzzle/sudoku/io/GameBoardReaderException.java:30-63 | The appender builds `MessageText`: the base message, ": ", then the row, col and token sections that are set, in that order. |
| GameBoardReaderExceptions.MessagePrefix | src/gtf/puzzle/sudoku/io/GameBoardReaderException.java:51-52 | The message starts with the base message followed by ": ". |
| GameBoardReaderExceptions.SectionsPresent | src/gtf/puzzle/sudoku/io/GameBoardReaderException.java:53-61 | Each section is present iff its field is set, in the order row, col, token. |
| GameBoardReaderExceptions.MessageDetermines | src/gtf/puzzle/sudoku/io/GameBoardReaderException.java:50-62 | With the base message fixed, the text determines the row, the column and the token. |
| GameBoardReaders.ParseTokens | src/gtf/puzzle/sudoku/io/GameBoardReader.java:26-34 | Parsing c tokens yields c values. |
| GameBoardReaders.GridRows | src/gtf/puzzle/sudoku/io/GameBoardReader.java:23-45 | Reading n rows yields n rows of width values. |
| GameBoardReaders.CreateBoardByDimensionSpec | src/gtf/puzzle/sudoku/io/GameBoardReader.java:55-81 | A missing line gives "Couldn't read side". One token n gives n×n zones and two give h×w; any other count fails. A bad number gives "Bad number in dimension spec", and the topology's messages are rethrown. A board that is built is empty. |
| GameBoardReaders.Read | src/gtf/puzzle/sudoku/io/GameBoardReader.java:14-53 | It succeeds exactly when `ReadSpec` does. Each cell then holds its parsed value if positive and is empty otherwise. |
| GameBoardReaders.ReadRows | src/gtf/puzzle/sudoku/io/GameBoardReader.java:21-48 | The line loop returns `Grid`: "Not enough rows" on too few lines. It sets exactly the positive values. |
| GameBoardReaders.ReadRow | src/gtf/puzzle/sudoku/io/GameBoardReader.java:24-42 | One line gives "Bad token" with its row, col and token, or "Not enough columns in row" (a blank line included), or the row's values. |
| GameBoardReaders.ReadTokens | src/gtf/puzzle/sudoku/io/GameBoardReader.java:26-42 | The token loop matches `RowValues` and writes only positive values. |
| GameBoardReaders.ReadCell | src/gtf/puzzle/sudoku/io/GameBoardReader.java:27-38 | A token is parsed and, when positive, set; a non-int token is a bad token. |
| GameBoardReaders.StoreValue | src/gtf/puzzle/sudoku/io/GameBoardReader.java:30-32 | A value > 0 sets the cell, and 0 or a negative value leaves it unchanged. |
| GameBoardReaders.WriteRowsCell | src/gtf/puzzle/sudoku/io/GameBoardReader.java:23-45 | After reading, a cell holds its value exactly when the value is positive. |
| GameBoardReaders.ExtraTokensIgnored | src/gtf/puzzle/sudoku/io/GameBoardReader.java:26 | Tokens past the first width on a row are ignored. |
| GameBoardReaders.ExtraRowsIgnored | src/gtf/puzzle/sudoku/io/GameBoardReader.java:23 | Lines past the first width are ignored. |
| GameBoardReaders.ExtraLinesIgnored | src/gtf/puzzle/sudoku/io/GameBoardReader.java:14-53 | Appending lines to a readable input does not change what is read. |
| JavaPlatform.TokensOfJoinSpaced | src/gtf/puzzle/sudoku/io/GameBoardReader.java:24-27 | Tokenizing a space-joined line of tokens gives them back. |
| JavaPlatform.TokensOfBlank | src/gtf/puzzle/sudoku/io/GameBoardReader.java:40-42 | A blank line has no tokens. |
| JavaPlatform.ParseIntOfIntToString | src/gtf/puzzle/sudoku/io/GameBoardReader.java:29 | parseInt(toString(x)) = x for every int. |
| GameBoardWriters.Write | src/gtf/puzzle/sudoku/io/GameBoardWriter.java:17-35 | The printed text is `BoardText`: the header, then width row lines. |
| GameBoardWriters.PrintRow | src/gtf/puzzle/sudoku/io/GameBoardWriter.java:24-29 | The column loop prints exactly `RowText`. |
| GameBoardWriters.PrintableValueParses | src/gtf/puzzle/sudoku/io/GameBoardWriter.java:37-43 | An empty cell prints "0" and any other its decimal value. Either way it is one token that parses back. |
| GameBoardWriters.RowTextJoined | src/gtf/puzzle/sudoku/io/GameBoardWriter.java:24-29 | A row line is its values joined by single spaces, with no trailing space. |
| GameBoardWriters.WrittenLines | src/gtf/puzzle/sudoku/io/GameBoardWriter.java:22-31 | The text reads back as the "hsize wsize" line followed by exactly width row lines. |
| GameBoardWriters.ReadHeader | src/gtf/puzzle/sudoku/io/GameBoardWriter.java:22 | The header reads back as the zone sizes. |
| GameBoardWriters.ReadGrid | src/gtf/puzzle/sudoku/io/GameBoardWriter.java:23-31 | The printed rows read back as the board's values. |
| GameBoardWriters.ReadWritten | src/gtf/puzzle/sudoku/io/GameBoardWriter.java:17-43 | For empty or positive cells, reading the written text reproduces the zone sizes and every cell. |
| SudokuFormatters.New | src/gtf/puzzle/sudoku/io/SudokuFormatter.java:19-22 | The formatter keeps its topology. |
| SudokuFormatters.AsString | src/gtf/puzzle/sudoku/io/SudokuFormatter.java:36-57 | The text is `FormatText` of the graph's colours. The method only reads the graph. |
| SudokuFormatters.FormatCells | src/gtf/puzzle/sudoku/io/SudokuFormatter.java:42-48 | The column loop builds `FormatRow` for the row. |
| SudokuFormatters.FormatCell | src/gtf/puzzle/sudoku/io/SudokuFormatter.java:43-44 | An empty cell prints " " and any other its decimal value. |
| SudokuFormatters.SeparatorBars | src/gtf/puzzle/sudoku/io/SudokuFormatter.java:45-47 | A "\|" follows column col exactly when (col + 1) % wsize = 0 and col is not the last column. |
| SudokuFormatters.RowSeparators | src/gtf/puzzle/sudoku/io/SudokuFormatter.java:45-47 | Each row line holds (width − 1) / wsize zone separators. |
| SudokuFormatters.RowPlain | src/gtf/puzzle/sudoku/io/SudokuFormatter.java:42-48 | A row line holds no newline and is never empty. |
| SudokuFormatters.FormattedLines | src/gtf/puzzle/sudoku/io/SudokuFormatter.java:49-53 | Read back line by line, the text is each row in order. After every band of hsize rows except the last comes the bar line, and there is no final newline. |
| SudokuFormatters.FormatRowsTerminated | src/gtf/puzzle/sudoku/io/SudokuFormatter.java:49-54 | Before the last row, every line so far ends with "\n". |
| SudokuFormatters.LineCount | src/gtf/puzzle/sudoku/io/SudokuFormatter.java:41-55 | The text has width row lines and (width − 1) / hsize bar lines. |
| SudokuFormatters.MultiplesCount | src/gtf/puzzle/sudoku/io/SudokuFormatter.java:51 | There are n / k multiples of k among 1..n: the bars and separators counted. |
| SudokuFormatters.BarFitsOnlyNine | src/gtf/puzzle/sudoku/io/SudokuFormatter.java:21-26 | The bar is always "-----+-----+-----\n". It is as wide as a row of one-character cells exactly when the board is 9 wide. |

## Left out

- **Real I/O.** Input and output streams, `BufferedReader`, `PrintWriter` and their `close` in `finally` are not modelled, and neither is `IOException`. The reader takes the lines `readLine` returns, the writer returns the text it prints, and `println` ends a line with "\n".
- **`getReader`.** The `getReader` methods of the formatter only wrap `asString` in a `java.io.Reader`.
- **Listener callbacks.** Their behaviour is foreign code, and is recorded rather than run. This includes a listener that changes the list during a `fire*` loop.
- **Hash ordering.** Java hashing, capacity hints and iteration order are not modelled. `CartesianProducts.CartesianProduct.AllNodes` is a set, and the solver's result `HashSet` is a sequence. Graphs use identity equality, so the set never merges two solutions.
- **Other classes.** `SolverEvent.toString`, `EventReporter`, `GameRunner` and the interface-only files are not part of this model.
- **The caches' purpose.** Only their correctness invariant is modelled, not the performance gain they exist for.
- Solvers.Solver.Solve: `steps` and the recursion depth are unbounded integers, so Java's 32-bit wrap-around of the step counter is not modelled.
- Solvers.Solver.Solve: it requires a well-formed topology, and the model excludes every other topology. Java does not reject them, and does the following with each:
  - a listed node without a neighbour list makes `getNeighbours` throw NullPointerException;
  - a node that has a list but is not listed is never visited;
  - a neighbour without a list of its own is read as uncoloured;
  - a node count different from the number of nodes makes `isComplete` (`colours.size() == topology.getNodeCount()`) report completion too early, or never.
- Backtracking.Backtrackable.GetUnvaluedNodesSorted: it requires the same well-formed topology. Java runs on the other topologies as described on the previous line.
- SudokuTopologies.New: it requires hsize² · wsize² to fit in a Java int. Beyond that, Java's `getWidth` and `getNodeCount` overflow; the array and list sizes then misbehave, and that is not modelled.
- SudokuBoards.SudokuBoard.New: it carries the same requirement. The reader reports such zone sizes as the `BoardTooLarge` error instead.
- JavaPlatform.ParseInt: it accepts only an ASCII sign and ASCII digits. `Integer.parseInt` also accepts non-ASCII Unicode digits.
- GameBoardWriters.ReadWritten: it is stated for boards whose cells are empty or positive. A stored value ≤ 0 is written but reads back as an empty cell.
- GameBoardReaderExceptions.GetMessage: the base message is never null here, so `super.getMessage()` returning null (printed as "null") is not modelled.
- ColourableGraphs.ColourableGraph.constructor: it requires a non-negative node count. Java's `new HashMap(topology.getNodeCount())` throws IllegalArgumentException for a negative count; a constructor in the model cannot fail, so that case is excluded.
- ColourableGraphs.ColourableGraph.Unconstrained: it requires a non-negative node count, for the same reason.
- ColourableGraphs.ColourableGraph.Constrained: it requires a non-negative node count, for the same reason.
- ColourableGraphs.ColourableGraph.CopyOf: it requires a non-negative node count, because `copyOf` calls the same constructor. A graph that was built has one.
- SudokuBoards.SudokuBoard.Wire: it requires a non-negative node count for the graph it builds. `SudokuBoard.New` passes a topology with width² nodes.
- CartesianProducts.New: the map keys, and the lists they are looked up with, use value equality on the factor nodes. Java's `Pair.equals` compares components by reference, so the model assumes each factor's neighbour lists hold the very objects its `getAllNodes` lists. `Polygon` breaks this, since `getNeighbours` returns new `Integer` objects. For a product with a polygon, the map lookup for such a neighbour finds nothing. Java's `getNeighbours` then throws NullPointerException, because `Collections.unmodifiableCollection` is given null.
- CartesianProducts.ProductSymmetric: it is stated under the same assumption, and so says nothing about a product with a polygon as Java runs it.
- SudokuFormatters.New: its contract states only the topology. The bar it stores is stated by `SudokuFormatters.BarFitsOnlyNine`.
- Pairs.HashCode: the components' `hashCode` methods are passed in as functions.

## Findings

| source | as written | input that shows it | evidently intended | confidence | as-written member | corrected member |
|---|---|---|---|---|---|---|
| src/gtf/math/graph/impl/Polygon.java:33-36 | `nodes.set(i, i)` on a list created with only a capacity, which has no elements yet | size = 1: `set(0, 0)` throws IndexOutOfBoundsException, so no polygon of size ≥ 1 can be built | `nodes.add(i)`, giving the node list 0..size−1: a well-formed, symmetric topology | not executed | Polygons.New | Polygons.NewIntended |
