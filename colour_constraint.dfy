/**
 * Colour constraints (src/gtf/math/graph/ColourConstraint.java and its two
 * implementations) and the read-only queries of a colouring they rely on.
 */
module ColourConstraints {
  import opened Wrappers
  import opened Topologies

  /**
   * The colours of a graph: Java's HashMap from node to colour, which may
   * hold a null colour (None) for a node passed to setColour with null.
   */
  type Colours<T, V> = map<T, Option<V>>

  /** getColour: a missing entry and a null entry both read as uncoloured. */
  function ColourAt<T, V>(colours: Colours<T, V>, n: T): Option<V>
  {
    if n in colours then colours[n] else None
  }

  /**
   * The errors the colouring engine raises: an address the topology has
   * no neighbour list for (the NullPointerException from the topology
   * lookup), and a colour refused by the constraint.
   */
  datatype GraphError<T, V> =
    | InvalidAddress(node: T)
    | ColourConstraintViolation(node: T, colour: Option<V>)

  /** The distinct non-null colours found along `nodes`, gathered left to right. */
  function ColoursAlong<T, V>(colours: Colours<T, V>, nodes: seq<T>): set<V>
    decreases |nodes|
  {
    if nodes == [] then {}
    else
      var last := ColourAt(colours, nodes[|nodes| - 1]);
      ColoursAlong(colours, nodes[..|nodes| - 1]) + (if last.Some? then {last.value} else {})
  }

  lemma {:induction false} ColoursAlongMembers<T, V>(colours: Colours<T, V>, nodes: seq<T>, c: V)
    ensures c in ColoursAlong(colours, nodes) <==> exists b :: b in nodes && ColourAt(colours, b) == Some(c)
    decreases |nodes|
  {
    if nodes != [] {
      var init := nodes[..|nodes| - 1];
      ColoursAlongMembers(colours, init, c);
      assert nodes == init + [nodes[|nodes| - 1]];
      if c in ColoursAlong(colours, init) {
        var b :| b in init && ColourAt(colours, b) == Some(c);
        assert b in nodes;
      }
    }
  }

  /** Two colourings that agree along `nodes` gather the same colours there. */
  lemma {:induction false} ColoursAlongAgree<T, V>(c1: Colours<T, V>, c2: Colours<T, V>, nodes: seq<T>)
    requires forall b :: b in nodes ==> ColourAt(c1, b) == ColourAt(c2, b)
    ensures ColoursAlong(c1, nodes) == ColoursAlong(c2, nodes)
    decreases |nodes|
  {
    if nodes != [] {
      var init := nodes[..|nodes| - 1];
      forall b | b in init ensures ColourAt(c1, b) == ColourAt(c2, b) {
        assert b in nodes;
      }
      ColoursAlongAgree(c1, c2, init);
    }
  }

  /** getNeighbourColours, computed afresh: the non-null colours of the node's neighbours. */
  function NeighbourColours<T, V>(topology: Topology<T>, colours: Colours<T, V>, n: T): set<V>
    requires n in topology.neighbours
  {
    ColoursAlong(colours, topology.neighbours[n])
  }

  lemma NeighbourColoursMembers<T, V>(topology: Topology<T>, colours: Colours<T, V>, n: T, c: V)
    requires n in topology.neighbours
    ensures c in NeighbourColours(topology, colours, n)
        <==> exists b :: b in topology.neighbours[n] && ColourAt(colours, b) == Some(c)
  {
    ColoursAlongMembers(colours, topology.neighbours[n], c);
  }

  /** The two constraint strategies of the engine. */
  datatype Constraint = Vacuous | UnalikeNeighbours

  /** VacuousColourConstraint.check: allows everything. */
  predicate VacuousCheck<V>(colour: Option<V>)
  {
    true
  }

  /**
   * UnalikeNeighboursColourConstraint.check, given the neighbour colours
   * it asks the graph for: null always passes; a colour passes when no
   * neighbour colour equals it (the loop's early `return false`).
   */
  predicate UnalikeCheck<V(==)>(neighbourColours: set<V>, colour: Option<V>)
  {
    colour.None? || colour.value !in neighbourColours
  }

  /**
   * ColourConstraint.check dispatched on the strategy. Only the
   * unalike-neighbours check with a non-null colour consults the graph,
   * and it fails on an address the topology does not know.
   */
  function Check<T, V(==)>(constraint: Constraint, topology: Topology<T>, colours: Colours<T, V>,
                           n: T, colour: Option<V>): (r: Result<bool, GraphError<T, V>>)
    ensures colour.None? || constraint.Vacuous? ==> r == Ok(true)
    ensures constraint.UnalikeNeighbours? && colour.Some? ==> (r.Ok? <==> n in topology.neighbours)
    ensures r.Err? ==> r.error == InvalidAddress(n)
  {
    match constraint
    case Vacuous => Ok(VacuousCheck(colour))
    case UnalikeNeighbours =>
      if colour.None? then Ok(true)
      else if n !in topology.neighbours then Err(InvalidAddress(n))
      else Ok(UnalikeCheck(NeighbourColours(topology, colours, n), colour))
  }

  /**
   * Under the unalike-neighbours constraint a non-null colour passes
   * exactly when no neighbour of the node currently has that colour.
   */
  lemma UnalikeMeansNoNeighbourHasIt<T, V>(topology: Topology<T>, colours: Colours<T, V>, n: T, c: V)
    requires n in topology.neighbours
    ensures Check(UnalikeNeighbours, topology, colours, n, Some(c))
         == Ok(forall b :: b in topology.neighbours[n] ==> ColourAt(colours, b) != Some(c))
  {
    NeighbourColoursMembers(topology, colours, n, c);
  }

  /**
   * The node's own colour never matters unless the node is listed as its
   * own neighbour: recolouring it leaves every check on it unchanged.
   */
  lemma CheckIgnoresOwnColour<T, V>(constraint: Constraint, topology: Topology<T>, colours: Colours<T, V>,
                                    n: T, colour: Option<V>, own: Option<V>)
    requires n in topology.neighbours ==> n !in topology.neighbours[n]
    ensures Check(constraint, topology, colours[n := own], n, colour) == Check(constraint, topology, colours, n, colour)
  {
    if n in topology.neighbours {
      forall b | b in topology.neighbours[n] ensures ColourAt(colours[n := own], b) == ColourAt(colours, b) {
      }
      ColoursAlongAgree(colours[n := own], colours, topology.neighbours[n]);
    }
  }
}
