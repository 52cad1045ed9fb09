/**
 * The colouring engine's graph (src/gtf/math/graph/impl/ColourableGraphImpl.java):
 * a partial colouring over a fixed topology, a colour space and a
 * constraint, with two caches that setColour clears.
 */
module ColourableGraphs {
  import opened Wrappers
  import opened Topologies
  import opened ColourConstraints

  /**
   * A snapshot of a graph: everything its observable behaviour depends on.
   * The colour space is the list getColours() returned at construction.
   */
  datatype GraphState<T, V> = GraphState(topology: Topology<T>, colourSpace: seq<V>, constraint: Constraint,
                                         checkOnSet: bool, colours: Colours<T, V>)
  {
    /** getColour */
    function Colour(n: T): Option<V>
    {
      ColourAt(colours, n)
    }

    /** isComplete: as many colour entries (null ones included) as the topology has nodes. */
    predicate IsComplete()
    {
      |colours.Keys| == topology.nodeCount
    }
  }

  /**
   * The colours of `space` that pass the constraint at `n`, in order;
   * the first failing check ends the whole computation.
   */
  function PossibleAmong<T, V(==)>(s: GraphState<T, V>, n: T, space: seq<V>): (r: Result<seq<V>, GraphError<T, V>>)
    ensures r.Ok? <==> space == [] || s.constraint.Vacuous? || n in s.topology.neighbours
    ensures r.Err? ==> r.error == InvalidAddress(n)
    ensures s.constraint.Vacuous? ==> r == Ok(space)
    ensures r.Ok? ==> |r.value| <= |space| && forall c :: c in r.value ==> c in space
    decreases |space|
  {
    if space == [] then Ok([])
    else
      var init := space[..|space| - 1];
      var c := space[|space| - 1];
      assert space == init + [c];
      match PossibleAmong(s, n, init)
      case Err(e) => Err(e)
      case Ok(prefix) =>
        match Check(s.constraint, s.topology, s.colours, n, Some(c))
        case Err(e) => Err(e)
        case Ok(pass) => Ok(if pass then prefix + [c] else prefix)
  }

  /** getPossibleColoursForNode, computed afresh. */
  function PossibleColours<T, V(==)>(s: GraphState<T, V>, n: T): Result<seq<V>, GraphError<T, V>>
  {
    PossibleAmong(s, n, s.colourSpace)
  }

  /**
   * Under the unalike-neighbours constraint, at a known node, the
   * possible colours are exactly the colours of the space that no
   * neighbour currently has.
   */
  lemma {:induction false} UnalikePossibleAmong<T, V>(s: GraphState<T, V>, n: T, space: seq<V>, c: V)
    requires s.constraint.UnalikeNeighbours? && n in s.topology.neighbours
    ensures PossibleAmong(s, n, space).Ok?
    ensures c in PossibleAmong(s, n, space).value
        <==> c in space && forall b :: b in s.topology.neighbours[n] ==> s.Colour(b) != Some(c)
    decreases |space|
  {
    if space != [] {
      var init := space[..|space| - 1];
      var last := space[|space| - 1];
      UnalikePossibleAmong(s, n, init, c);
      UnalikeMeansNoNeighbourHasIt(s.topology, s.colours, n, c);
      UnalikeMeansNoNeighbourHasIt(s.topology, s.colours, n, last);
      assert space == init + [last];
    }
  }

  lemma UnalikePossibleColours<T, V>(s: GraphState<T, V>, n: T, c: V)
    requires s.constraint.UnalikeNeighbours? && n in s.topology.neighbours
    ensures PossibleColours(s, n).Ok?
    ensures c in PossibleColours(s, n).value
        <==> c in s.colourSpace && forall b :: b in s.topology.neighbours[n] ==> s.Colour(b) != Some(c)
  {
    UnalikePossibleAmong(s, n, s.colourSpace, c);
  }

  /** Once the filter fails on a prefix, it fails on the whole list with the same error. */
  lemma {:induction false} PossibleAmongErrPersists<T, V>(s: GraphState<T, V>, n: T, space: seq<V>, i: nat)
    requires i <= |space| && PossibleAmong(s, n, space[..i]).Err?
    ensures PossibleAmong(s, n, space) == PossibleAmong(s, n, space[..i])
    decreases |space| - i
  {
    if i < |space| {
      assert space[..i + 1][..i] == space[..i];
      PossibleAmongErrPersists(s, n, space, i + 1);
    } else {
      assert space[..i] == space;
    }
  }

  /**
   * setColour: with checking on, an error from the constraint propagates
   * and a refused colour is a violation; otherwise the entry is stored,
   * null included.
   */
  function SetColourSpec<T, V(==)>(s: GraphState<T, V>, n: T, colour: Option<V>): (r: Result<GraphState<T, V>, GraphError<T, V>>)
    ensures !s.checkOnSet ==> r.Ok?
    ensures s.checkOnSet ==> (r.Ok? <==> Check(s.constraint, s.topology, s.colours, n, colour) == Ok(true))
    ensures r.Err? && Check(s.constraint, s.topology, s.colours, n, colour).Ok? ==> r.error == ColourConstraintViolation(n, colour)
    ensures r.Ok? ==> r.value.Colour(n) == colour && n in r.value.colours
    ensures r.Ok? ==> r.value.(colours := s.colours) == s
  {
    var ok := if !s.checkOnSet then Ok(true) else Check(s.constraint, s.topology, s.colours, n, colour);
    match ok
    case Err(e) => Err(e)
    case Ok(pass) => if pass then Ok(s.(colours := s.colours[n := colour])) else Err(ColourConstraintViolation(n, colour))
  }

  /** A successful setColour changes no other node's colour or entry. */
  lemma SetColourLeavesOthers<T, V>(s: GraphState<T, V>, n: T, colour: Option<V>, m: T)
    requires SetColourSpec(s, n, colour).Ok? && m != n
    ensures SetColourSpec(s, n, colour).value.Colour(m) == s.Colour(m)
    ensures m in SetColourSpec(s, n, colour).value.colours <==> m in s.colours
  {
  }

  /** The non-null colours of `colours` at the nodes of `nodes`. */
  function CopiedColours<T, V>(colours: Colours<T, V>, nodes: seq<T>): (r: Colours<T, V>)
    ensures forall n :: n in r ==> n in nodes && r[n].Some? && r[n] == ColourAt(colours, n)
    ensures forall n :: n in nodes && ColourAt(colours, n).Some? ==> n in r
    decreases |nodes|
  {
    if nodes == [] then map[]
    else
      var init := CopiedColours(colours, nodes[..|nodes| - 1]);
      var last := nodes[|nodes| - 1];
      var c := ColourAt(colours, last);
      assert forall n :: n in nodes ==> n in nodes[..|nodes| - 1] || n == last;
      if c.Some? then init[last := c] else init
  }

  /** Copying one more node adds its colour, when it has one. */
  lemma CopiedColoursSnoc<T, V>(colours: Colours<T, V>, nodes: seq<T>, i: int)
    requires 0 <= i < |nodes|
    ensures CopiedColours(colours, nodes[..i + 1])
            == if ColourAt(colours, nodes[i]).Some?
               then CopiedColours(colours, nodes[..i])[nodes[i] := ColourAt(colours, nodes[i])]
               else CopiedColours(colours, nodes[..i])
  {
    assert nodes[..i + 1][..i] == nodes[..i];
  }

  /** copyOf: same topology, colour space, constraint and flag; the non-null colours of the topology's nodes. */
  function Copy<T, V>(s: GraphState<T, V>): GraphState<T, V>
  {
    s.(colours := CopiedColours(s.colours, s.topology.allNodes))
  }

  /**
   * The copy reads the same colour as the original at every topology
   * node, is uncoloured elsewhere, and holds no null entry.
   */
  lemma CopyColours<T, V>(s: GraphState<T, V>, n: T)
    ensures Copy(s).Colour(n) == (if n in s.topology.allNodes then s.Colour(n) else None)
    ensures n in Copy(s).colours <==> n in s.topology.allNodes && s.Colour(n).Some?
    ensures Copy(s).(colours := s.colours) == s
  {
  }

  class ColourableGraph<T(==), V(==)> {
    const topology: Topology<T>
    /** allColours: the colour space's list, fetched once at construction. */
    const colourSpace: seq<V>
    const constraint: Constraint
    const checkConstraintOnSetColour: bool
    var colours: Colours<T, V>
    var possibleColoursCache: map<T, seq<V>>
    var neighbourColoursCache: map<T, set<V>>

    function State(): GraphState<T, V>
      reads this`colours
    {
      GraphState(topology, colourSpace, constraint, checkConstraintOnSetColour, colours)
    }

    /** The cache invariant: every cached entry equals a fresh recomputation from the current colours. */
    ghost predicate Valid()
      reads this
    {
      && (forall n :: n in neighbourColoursCache ==>
            n in topology.neighbours && neighbourColoursCache[n] == NeighbourColours(topology, colours, n))
      && (forall n :: n in possibleColoursCache ==> PossibleColours(State(), n) == Ok(possibleColoursCache[n]))
    }

    /** The two-argument constructor: no constraint, no checking. */
    constructor Unconstrained(topology: Topology<T>, colourSpace: seq<V>)
      requires topology.nodeCount >= 0
      ensures State() == GraphState(topology, colourSpace, Vacuous, false, map[])
      ensures possibleColoursCache == map[] && neighbourColoursCache == map[]
      ensures Valid()
    {
      this.topology := topology;
      this.colourSpace := colourSpace;
      this.constraint := Vacuous;
      this.checkConstraintOnSetColour := false;
      colours := map[];
      possibleColoursCache := map[];
      neighbourColoursCache := map[];
    }

    /** The three-argument constructor: the constraint is checked on every setColour. */
    constructor Constrained(topology: Topology<T>, colourSpace: seq<V>, constraint: Constraint)
      requires topology.nodeCount >= 0
      ensures State() == GraphState(topology, colourSpace, constraint, true, map[])
      ensures possibleColoursCache == map[] && neighbourColoursCache == map[]
      ensures Valid()
    {
      this.topology := topology;
      this.colourSpace := colourSpace;
      this.constraint := constraint;
      this.checkConstraintOnSetColour := true;
      colours := map[];
      possibleColoursCache := map[];
      neighbourColoursCache := map[];
    }

    /**
     * The four-argument constructor. Java sizes its hash maps with the
     * node count, which throws for a negative count; that case is excluded.
     */
    constructor (topology: Topology<T>, colourSpace: seq<V>, constraint: Constraint, checkConstraintOnSetColour: bool)
      requires topology.nodeCount >= 0
      ensures State() == GraphState(topology, colourSpace, constraint, checkConstraintOnSetColour, map[])
      ensures possibleColoursCache == map[] && neighbourColoursCache == map[]
      ensures Valid()
    {
      this.topology := topology;
      this.colourSpace := colourSpace;
      this.constraint := constraint;
      this.checkConstraintOnSetColour := checkConstraintOnSetColour;
      colours := map[];
      possibleColoursCache := map[];
      neighbourColoursCache := map[];
    }

    /** getColour */
    function GetColour(n: T): (c: Option<V>)
      reads this
      ensures c.Some? ==> n in colours && colours[n] == c
      ensures n in colours ==> c == colours[n]
      ensures n !in colours ==> c.None?
    {
      State().Colour(n)
    }

    /** isComplete */
    predicate IsComplete()
      reads this
    {
      State().IsComplete()
    }

    /**
     * getNeighbourColours: the cached set when there is one, otherwise the
     * colours gathered along the neighbour list, which is then cached.
     */
    method GetNeighbourColours(n: T) returns (r: Result<set<V>, GraphError<T, V>>)
      requires Valid()
      modifies this`neighbourColoursCache
      ensures Valid()
      ensures r.Ok? <==> n in topology.neighbours
      ensures r.Ok? ==> r.value == NeighbourColours(topology, colours, n)
      ensures r.Err? ==> r.error == InvalidAddress(n) && neighbourColoursCache == old(neighbourColoursCache)
    {
      if n in neighbourColoursCache {
        return Ok(neighbourColoursCache[n]);
      }
      match topology.Neighbours(n)
      case Err(_) =>
        return Err(InvalidAddress(n));
      case Ok(nbs) =>
        var result: set<V> := {};
        for i := 0 to |nbs|
          invariant result == ColoursAlong(colours, nbs[..i])
        {
          assert nbs[..i + 1][..i] == nbs[..i];
          var colour := GetColour(nbs[i]);
          if colour.Some? {
            result := result + {colour.value};
          }
        }
        assert nbs[..|nbs|] == nbs;
        neighbourColoursCache := neighbourColoursCache[n := result];
        return Ok(result);
    }

    /** The constraint's check against this graph; it may fill the neighbour-colour cache. */
    method CheckConstraint(n: T, colour: Option<V>) returns (r: Result<bool, GraphError<T, V>>)
      requires Valid()
      modifies this`neighbourColoursCache
      ensures Valid()
      ensures r == Check(constraint, topology, colours, n, colour)
    {
      match constraint
      case Vacuous =>
        return Ok(VacuousCheck(colour));
      case UnalikeNeighbours =>
        if colour.None? {
          return Ok(true);
        }
        var neighbourColours := GetNeighbourColours(n);
        if neighbourColours.Err? {
          return Err(neighbourColours.error);
        }
        return Ok(UnalikeCheck(neighbourColours.value, colour));
    }

    /**
     * setColour: on success the colour is stored (null included) and both
     * caches are emptied; on failure the colours are left as they were.
     */
    method SetColour(n: T, colour: Option<V>) returns (r: Result<(), GraphError<T, V>>)
      requires Valid()
      modifies this`colours, this`possibleColoursCache, this`neighbourColoursCache
      ensures Valid()
      ensures r.Ok? <==> SetColourSpec(old(State()), n, colour).Ok?
      ensures r.Ok? ==> State() == SetColourSpec(old(State()), n, colour).value
      ensures r.Ok? ==> possibleColoursCache == map[] && neighbourColoursCache == map[]
      ensures r.Err? ==> r.error == SetColourSpec(old(State()), n, colour).error
      ensures r.Err? ==> colours == old(colours) && possibleColoursCache == old(possibleColoursCache)
    {
      var ok := true;
      if checkConstraintOnSetColour {
        var checked := CheckConstraint(n, colour);
        if checked.Err? {
          return Err(checked.error);
        }
        ok := checked.value;
      }
      if ok {
        colours := colours[n := colour];
        possibleColoursCache := map[];
        neighbourColoursCache := map[];
        r := Ok(());
      } else {
        r := Err(ColourConstraintViolation(n, colour));
      }
    }

    /**
     * getPossibleColoursForNode: the cached list when there is one,
     * otherwise the colour space filtered by the constraint, which is then
     * cached. It does not refuse an already coloured node.
     */
    method GetPossibleColours(n: T) returns (r: Result<seq<V>, GraphError<T, V>>)
      requires Valid()
      modifies this`possibleColoursCache, this`neighbourColoursCache
      ensures Valid()
      ensures r == PossibleColours(State(), n)
    {
      if n in possibleColoursCache {
        return Ok(possibleColoursCache[n]);
      }
      var result: seq<V> := [];
      for i := 0 to |colourSpace|
        invariant Valid()
        invariant PossibleAmong(State(), n, colourSpace[..i]) == Ok(result)
      {
        var c := colourSpace[i];
        assert colourSpace[..i + 1][..i] == colourSpace[..i];
        var pass := CheckConstraint(n, Some(c));
        if pass.Err? {
          PossibleAmongErrPersists(State(), n, colourSpace, i + 1);
          return Err(pass.error);
        }
        if pass.value {
          result := result + [c];
        }
      }
      assert colourSpace[..|colourSpace|] == colourSpace;
      possibleColoursCache := possibleColoursCache[n := result];
      return Ok(result);
    }

    /**
     * copyOf: a new graph with the same parameters whose colours are this
     * graph's non-null colours at the topology's nodes, and whose caches
     * are empty.
     */
    method CopyOf() returns (copy: ColourableGraph<T, V>)
      requires topology.nodeCount >= 0
      ensures fresh(copy)
      ensures copy.State() == Copy(State())
      ensures copy.possibleColoursCache == map[] && copy.neighbourColoursCache == map[]
      ensures copy.Valid()
    {
      copy := new ColourableGraph(topology, colourSpace, constraint, checkConstraintOnSetColour);
      var nodes := topology.allNodes;
      for i := 0 to |nodes|
        invariant copy.topology == topology && copy.colourSpace == colourSpace
        invariant copy.constraint == constraint && copy.checkConstraintOnSetColour == checkConstraintOnSetColour
        invariant copy.colours == CopiedColours(colours, nodes[..i])
        invariant copy.possibleColoursCache == map[] && copy.neighbourColoursCache == map[]
      {
        CopiedColoursSnoc(colours, nodes, i);
        var colour := GetColour(nodes[i]);
        if colour.Some? {
          copy.colours := copy.colours[nodes[i] := colour];
        }
      }
      assert nodes[..|nodes|] == nodes;
    }
  }
}
