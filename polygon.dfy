/** The n-sided polygon topology (src/gtf/math/graph/impl/Polygon.java). */
module Polygons {
  import opened Wrappers
  import opened JavaPlatform
  import opened ModularArithmetic
  import opened Topologies

  /** A polygon: its size and the node list the constructor filled. */
  datatype Polygon = Polygon(size: Int32, nodes: seq<Int32>)
  {
    /** getAllNodes. */
    function AllNodes(): seq<Int32> { nodes }

    /** getNodeCount: the size passed to the constructor. */
    function NodeCount(): (r: int)
      ensures r == size
    {
      size
    }

    /**
     * getNeighbours: the nodes one step back and one step forward, both
     * reduced mod the size with `remainder`; the `± 1` is Java int
     * arithmetic, and a size of 0 makes `remainder` divide by zero.
     */
    function Neighbours(node: Int32): (r: Result<seq<Int32>, JavaException>)
      ensures r.Err? <==> size == 0
      ensures r.Err? ==> r.error.ArithmeticException?
      ensures r.Ok? ==> |r.value| == 2
      ensures r.Ok? && size > 0 ==> forall k :: 0 <= k < 2 ==> 0 <= r.value[k] < size
      ensures r.Ok? && 0 <= node < size ==> r.value == [Pred(node), Succ(node)]
    {
      var i := Remainder(Wrap32(node - 1), size);
      var j := Remainder(Wrap32(node + 1), size);
      if i.Err? then Err(i.error)
      else
        CycleSteps(node, size);
        Ok([i.value, j.value])
    }

    /** The node before `node` around the cycle. */
    function Pred(node: int): int
      requires 0 <= node < size
    {
      if node == 0 then size - 1 else node - 1
    }

    /** The node after `node` around the cycle. */
    function Succ(node: int): int
      requires 0 <= node < size
    {
      if node == size - 1 then 0 else node + 1
    }
  }

  lemma CycleSteps(node: Int32, size: Int32)
    ensures 0 <= node < size ==>
      && Remainder(Wrap32(node - 1), size) == Ok(if node == 0 then size - 1 else node - 1)
      && Remainder(Wrap32(node + 1), size) == Ok(if node == size - 1 then 0 else node + 1)
  {
    if 0 <= node < size {
      StepBack(node, size);
      StepForward(node, size);
    }
  }

  lemma StepBack(node: Int32, size: Int32)
    requires 0 <= node < size
    ensures Remainder(Wrap32(node - 1), size) == Ok(if node == 0 then size - 1 else node - 1)
  {
    if node == 0 {
      RemainderOfMinusOne(size);
    } else {
      RemainderBelow(node - 1, size);
    }
  }

  lemma StepForward(node: Int32, size: Int32)
    requires 0 <= node < size
    ensures Remainder(Wrap32(node + 1), size) == Ok(if node == size - 1 then 0 else node + 1)
  {
    if node == size - 1 {
      assert JavaDiv(size, size) == 1;
    } else {
      RemainderBelow(node + 1, size);
    }
  }

  /** Stepping back from node 0 wraps round to the last node. */
  lemma RemainderOfMinusOne(size: Int32)
    requires size > 0
    ensures Remainder(Wrap32(-1), size) == Ok(size - 1)
  {
    if size == 1 {
      assert JavaRem(-1, 1) == 0;
    } else {
      assert Abs(-1) / Abs(size) == 0;
      assert JavaRem(-1, size) == -1;
    }
  }

  /** A non-negative dividend below the divisor is its own remainder. */
  lemma RemainderBelow(a: Int32, b: Int32)
    requires 0 <= a < b
    ensures JavaRem(a, b) == a
  {
    var q := a / b;
    assert a == q * b + a % b;
    if q != 0 {
      MultipleAtLeastDivisor(q, b);
    }
    assert JavaDiv(a, b) == 0;
  }

  /** List.set on an index the list does not have throws IndexOutOfBoundsException. */
  function ListSet<A>(list: seq<A>, index: int, value: A): (r: Result<seq<A>, JavaException>)
    ensures r.Err? <==> !(0 <= index < |list|)
    ensures r.Err? ==> r.error == IndexOutOfBoundsException(index, |list|)
    ensures r.Ok? ==> |r.value| == |list| && r.value[index] == value
    ensures r.Ok? ==> forall k :: 0 <= k < |list| && k != index ==> r.value[k] == list[k]
  {
    if 0 <= index < |list| then Ok(list[index := value])
    else Err(IndexOutOfBoundsException(index, |list|))
  }

  /**
   * The constructor as written: a negative size is rejected; then the
   * node list starts empty (the capacity hint gives it no elements) and
   * the loop calls `set(i, i)` on it, which fails on its first call. Only
   * the empty polygon can be built.
   */
  method New(size: Int32) returns (r: Result<Polygon, JavaException>)
    ensures size < 0 ==> r == Err(IllegalArgumentException("bad size " + IntToString(size)))
    ensures size == 0 ==> r == Ok(Polygon(0, []))
    ensures size > 0 ==> r == Err(IndexOutOfBoundsException(0, 0))
  {
    if size < 0 {
      return Err(IllegalArgumentException("bad size " + IntToString(size)));
    }
    var nodes: seq<Int32> := [];
    for i := 0 to size
      invariant i == 0 && nodes == []
    {
      var stored := ListSet(nodes, i, i);
      match stored
      case Err(e) =>
        return Err(e);
      case Ok(list) =>
        assert false;
    }
    return Ok(Polygon(size, nodes));
  }

  /**
   * The constructor as evidently intended: the loop appends 0..size-1,
   * which is what `add` instead of `set` would do.
   */
  method NewIntended(size: Int32) returns (r: Result<Polygon, JavaException>)
    ensures size < 0 ==> r == Err(IllegalArgumentException("bad size " + IntToString(size)))
    ensures size >= 0 ==> r.Ok? && r.value.size == size && Intended(r.value)
  {
    if size < 0 {
      return Err(IllegalArgumentException("bad size " + IntToString(size)));
    }
    var nodes: seq<Int32> := [];
    var i: Int32 := 0;
    while i < size
      invariant 0 <= i <= size
      invariant |nodes| == i
      invariant forall k :: 0 <= k < i ==> nodes[k] == k
    {
      nodes := nodes + [i];
      i := i + 1;
    }
    return Ok(Polygon(size, nodes));
  }

  /** The intended node list: 0, 1, ..., size-1. */
  ghost predicate Intended(p: Polygon)
  {
    p.size >= 0 && |p.nodes| == p.size && forall k :: 0 <= k < p.size ==> p.nodes[k] == k
  }

  /** The intended polygon seen as a topology: each node maps to its two neighbours. */
  function AsTopology(p: Polygon): (t: Topology<Int32>)
    requires p.size > 0
  {
    Topology(p.nodes, map k | k in p.nodes :: p.Neighbours(k).value, p.size)
  }

  /** The intended polygon is a well-formed topology whose node count is its size. */
  lemma IntendedWellFormed(p: Polygon)
    requires Intended(p) && p.size > 0
    ensures AsTopology(p).WellFormed()
    ensures AsTopology(p).nodeCount == |AsTopology(p).allNodes|
  {
    var t := AsTopology(p);
    IntendedNodes(p);
    DistinctCard(p.nodes);
    assert t.neighbours.Keys == set k | k in p.nodes;
    forall a, b | a in t.neighbours && b in t.neighbours[a] ensures b in t.neighbours {
      CycleNeighbours(p, a);
    }
  }

  /**
   * Each node is the predecessor of its successor and the successor of its
   * predecessor, so the intended polygon is symmetric.
   */
  lemma IntendedSymmetric(p: Polygon)
    requires Intended(p) && p.size > 0
    ensures AsTopology(p).Symmetric()
  {
    var t := AsTopology(p);
    forall a, b | a in t.neighbours && b in t.neighbours[a]
      ensures b in t.neighbours && a in t.neighbours[b]
    {
      IntendedEdgeBack(p, a, b);
    }
  }

  /** An edge of the intended polygon has its reverse edge. */
  lemma IntendedEdgeBack(p: Polygon, a: Int32, b: Int32)
    requires Intended(p) && p.size > 0
    requires a in AsTopology(p).neighbours && b in AsTopology(p).neighbours[a]
    ensures b in AsTopology(p).neighbours && a in AsTopology(p).neighbours[b]
  {
    CycleNeighbours(p, a);
    CycleNeighbours(p, b);
    PredSucc(p, a, b);
  }

  lemma PredSucc(p: Polygon, a: int, b: int)
    requires 0 <= a < p.size && 0 <= b < p.size
    ensures b == p.Pred(a) ==> p.Succ(b) == a
    ensures b == p.Succ(a) ==> p.Pred(b) == a
  {
  }

  /** A self-loop exists exactly in the one-node polygon. */
  lemma IntendedIrreflexive(p: Polygon)
    requires Intended(p) && p.size > 0
    ensures p.size >= 2 <==> AsTopology(p).Irreflexive()
  {
    var t := AsTopology(p);
    if p.size == 1 {
      CycleNeighbours(p, 0);
    } else {
      forall a | a in t.neighbours ensures a !in t.neighbours[a] {
        CycleNeighbours(p, a);
      }
    }
  }

  lemma CycleNeighbours(p: Polygon, a: Int32)
    requires Intended(p) && p.size > 0
    requires a in AsTopology(p).neighbours || 0 <= a < p.size
    ensures a in AsTopology(p).neighbours && 0 <= a < p.size
    ensures AsTopology(p).neighbours[a] == [p.Pred(a), p.Succ(a)]
    ensures p.Pred(a) in AsTopology(p).neighbours && p.Succ(a) in AsTopology(p).neighbours
  {
    IntendedNodes(p);
  }

  lemma IntendedNodes(p: Polygon)
    requires Intended(p)
    ensures forall n :: n in p.nodes <==> 0 <= n < p.size
    ensures forall i, j :: 0 <= i < j < |p.nodes| ==> p.nodes[i] != p.nodes[j]
  {
    forall n | 0 <= n < p.size ensures n in p.nodes {
      assert p.nodes[n] == n;
    }
  }
}
