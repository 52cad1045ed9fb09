/**
 * The backtracker's view of a graph (src/gtf/puzzle/engine/BacktrackableImpl.java):
 * the uncoloured nodes that still have candidates, in ascending order of
 * candidate count, ties broken by position in the topology's node list.
 */
module Backtracking {
  import opened Wrappers
  import opened Topologies
  import opened ColourConstraints
  import opened ColourableGraphs

  /**
   * _computeFakeOrdering: each node of the list is mapped to its index;
   * a node listed twice keeps its last index, as a later put overwrites.
   */
  function FakeOrdering<T>(nodes: seq<T>): (r: map<T, int>)
    ensures forall n :: n in nodes ==> n in r
    ensures forall n :: n in r ==> 0 <= r[n] < |nodes| && nodes[r[n]] == n
    decreases |nodes|
  {
    if nodes == [] then map[]
    else
      var init := nodes[..|nodes| - 1];
      assert forall n :: n in nodes ==> n in init || n == nodes[|nodes| - 1];
      FakeOrdering(init)[nodes[|nodes| - 1] := |nodes| - 1]
  }

  /** On a list without repetitions the i-th node is mapped to i. */
  lemma FakeOrderingIsIndex<T>(nodes: seq<T>, i: int)
    requires forall p, q :: 0 <= p < q < |nodes| ==> nodes[p] != nodes[q]
    requires 0 <= i < |nodes|
    ensures FakeOrdering(nodes)[nodes[i]] == i
  {
    var k := FakeOrdering(nodes)[nodes[i]];
    assert nodes[k] == nodes[i];
  }

  /** Distinct nodes always get distinct indices, repetitions or not. */
  lemma FakeOrderingInjective<T>(nodes: seq<T>, a: T, b: T)
    requires a in FakeOrdering(nodes) && b in FakeOrdering(nodes)
    requires FakeOrdering(nodes)[a] == FakeOrdering(nodes)[b]
    ensures a == b
  {
  }

  /** A node the comparator can rank: it has an index and its candidates can be computed. */
  predicate Comparable<T, V(==)>(s: GraphState<T, V>, fake: map<T, int>, n: T)
  {
    n in fake && PossibleColours(s, n).Ok?
  }

  /** The candidate colours of a node, as getPossibleColoursForNode returns them. */
  function Candidates<T, V(==)>(s: GraphState<T, V>, n: T): seq<V>
    requires PossibleColours(s, n).Ok?
  {
    PossibleColours(s, n).value
  }

  /** The comparator: difference of candidate counts, else difference of indices. */
  function Compare<T, V(==)>(s: GraphState<T, V>, fake: map<T, int>, x: T, y: T): int
    requires Comparable(s, fake, x) && Comparable(s, fake, y)
  {
    var xPossibilities := |Candidates(s, x)|;
    var yPossibilities := |Candidates(s, y)|;
    if xPossibilities != yPossibilities then xPossibilities - yPossibilities
    else fake[x] - fake[y]
  }

  /**
   * The comparator is a strict total order on ranked nodes: it is zero
   * only for the same node, antisymmetric, and transitive.
   */
  lemma CompareIsTotalOrder<T, V>(s: GraphState<T, V>, x: T, y: T, z: T)
    requires Comparable(s, FakeOrdering(s.topology.allNodes), x)
    requires Comparable(s, FakeOrdering(s.topology.allNodes), y)
    requires Comparable(s, FakeOrdering(s.topology.allNodes), z)
    ensures var fake := FakeOrdering(s.topology.allNodes);
      && (Compare(s, fake, x, y) == 0 <==> x == y)
      && (Compare(s, fake, x, y) < 0 <==> Compare(s, fake, y, x) > 0)
      && (Compare(s, fake, x, y) < 0 && Compare(s, fake, y, z) < 0 ==> Compare(s, fake, x, z) < 0)
  {
    var fake := FakeOrdering(s.topology.allNodes);
    if Compare(s, fake, x, y) == 0 {
      FakeOrderingInjective(s.topology.allNodes, x, y);
    }
  }

  /** A node the search may branch on: uncoloured, with at least one candidate. */
  predicate Eligible<T, V(==)>(s: GraphState<T, V>, n: T)
  {
    s.Colour(n).None? && PossibleColours(s, n).Ok? && PossibleColours(s, n).value != []
  }

  /** A TreeMap entry: a node and its candidate colours. */
  datatype Entry<T, V> = Entry(node: T, colours: seq<V>)

  predicate AllComparable<T, V(==)>(s: GraphState<T, V>, fake: map<T, int>, es: seq<Entry<T, V>>)
  {
    forall k :: 0 <= k < |es| ==> Comparable(s, fake, es[k].node)
  }

  /** Entries in strictly ascending comparator order. */
  predicate Sorted<T, V(==)>(s: GraphState<T, V>, fake: map<T, int>, es: seq<Entry<T, V>>)
  {
    AllComparable(s, fake, es)
    && forall i, j :: 0 <= i < j < |es| ==> Compare(s, fake, es[i].node, es[j].node) < 0
  }

  /**
   * TreeMap.put under the comparator: the entry goes before the first key
   * it ranks below; a key it ranks equal to keeps its place and takes the
   * new value.
   */
  function Put<T, V(==)>(s: GraphState<T, V>, fake: map<T, int>, sorted: seq<Entry<T, V>>, e: Entry<T, V>): (r: seq<Entry<T, V>>)
    requires fake == FakeOrdering(s.topology.allNodes)
    requires AllComparable(s, fake, sorted) && Comparable(s, fake, e.node)
    ensures AllComparable(s, fake, r)
    ensures forall k :: 0 <= k < |r| ==> r[k] == e || r[k] in sorted
    ensures e in r
    ensures forall x :: x in sorted && x.node != e.node ==> x in r
    decreases |sorted|
  {
    if sorted == [] then [e]
    else
      var cmp := Compare(s, fake, e.node, sorted[0].node);
      if cmp < 0 then [e] + sorted
      else if cmp == 0 then
        CompareIsTotalOrder(s, e.node, sorted[0].node, e.node);
        [Entry(sorted[0].node, e.colours)] + sorted[1..]
      else
        assert forall x :: x in sorted && x != sorted[0] ==> x in sorted[1..];
        [sorted[0]] + Put(s, fake, sorted[1..], e)
  }

  lemma SortedTail<T, V>(s: GraphState<T, V>, fake: map<T, int>, es: seq<Entry<T, V>>)
    requires Sorted(s, fake, es) && es != []
    ensures Sorted(s, fake, es[1..])
  {
    var rest := es[1..];
    forall i, j | 0 <= i < j < |rest| ensures Compare(s, fake, rest[i].node, rest[j].node) < 0 {
      assert rest[i] == es[i + 1] && rest[j] == es[j + 1];
    }
  }

  lemma SortedCons<T, V>(s: GraphState<T, V>, fake: map<T, int>, x: Entry<T, V>, rest: seq<Entry<T, V>>)
    requires Sorted(s, fake, rest) && Comparable(s, fake, x.node)
    requires forall k :: 0 <= k < |rest| ==> Compare(s, fake, x.node, rest[k].node) < 0
    ensures Sorted(s, fake, [x] + rest)
  {
    var r := [x] + rest;
    forall i, j | 0 <= i < j < |r| ensures Compare(s, fake, r[i].node, r[j].node) < 0 {
      assert r[j] == rest[j - 1];
      if i > 0 {
        assert r[i] == rest[i - 1];
      }
    }
  }

  lemma {:induction false} PutKeepsSorted<T, V>(s: GraphState<T, V>, fake: map<T, int>, sorted: seq<Entry<T, V>>, e: Entry<T, V>)
    requires fake == FakeOrdering(s.topology.allNodes)
    requires Sorted(s, fake, sorted) && Comparable(s, fake, e.node)
    ensures Sorted(s, fake, Put(s, fake, sorted, e))
    decreases |sorted|
  {
    if sorted != [] {
      var cmp := Compare(s, fake, e.node, sorted[0].node);
      if cmp < 0 {
        PutFirstSorted(s, fake, sorted, e);
      } else if cmp == 0 {
        PutSameSorted(s, fake, sorted, e);
      } else {
        SortedTail(s, fake, sorted);
        PutKeepsSorted(s, fake, sorted[1..], e);
        PutLaterSorted(s, fake, sorted, e);
      }
    }
  }

  /** An entry ranked below the first key goes in front. */
  lemma PutFirstSorted<T, V>(s: GraphState<T, V>, fake: map<T, int>, sorted: seq<Entry<T, V>>, e: Entry<T, V>)
    requires fake == FakeOrdering(s.topology.allNodes)
    requires Sorted(s, fake, sorted) && Comparable(s, fake, e.node) && sorted != []
    requires Compare(s, fake, e.node, sorted[0].node) < 0
    ensures Sorted(s, fake, Put(s, fake, sorted, e))
  {
    forall k | 0 <= k < |sorted| ensures Compare(s, fake, e.node, sorted[k].node) < 0 {
      if k > 0 {
        CompareIsTotalOrder(s, e.node, sorted[0].node, sorted[k].node);
      }
    }
    SortedCons(s, fake, e, sorted);
  }

  /** An entry ranked equal to the first key replaces its value in place. */
  lemma PutSameSorted<T, V>(s: GraphState<T, V>, fake: map<T, int>, sorted: seq<Entry<T, V>>, e: Entry<T, V>)
    requires fake == FakeOrdering(s.topology.allNodes)
    requires Sorted(s, fake, sorted) && Comparable(s, fake, e.node) && sorted != []
    requires Compare(s, fake, e.node, sorted[0].node) == 0
    ensures Sorted(s, fake, Put(s, fake, sorted, e))
  {
    var head, rest := sorted[0], sorted[1..];
    SortedTail(s, fake, sorted);
    CompareIsTotalOrder(s, e.node, head.node, e.node);
    forall k | 0 <= k < |rest| ensures Compare(s, fake, head.node, rest[k].node) < 0 {
      assert rest[k] == sorted[k + 1];
    }
    SortedCons(s, fake, Entry(head.node, e.colours), rest);
  }

  /** An entry ranked above the first key goes into the rest, behind it. */
  lemma PutLaterSorted<T, V>(s: GraphState<T, V>, fake: map<T, int>, sorted: seq<Entry<T, V>>, e: Entry<T, V>)
    requires fake == FakeOrdering(s.topology.allNodes)
    requires Sorted(s, fake, sorted) && Comparable(s, fake, e.node) && sorted != []
    requires Compare(s, fake, e.node, sorted[0].node) > 0
    requires AllComparable(s, fake, sorted[1..]) && Sorted(s, fake, Put(s, fake, sorted[1..], e))
    ensures Sorted(s, fake, Put(s, fake, sorted, e))
  {
    var head, rest := sorted[0], sorted[1..];
    var tail := Put(s, fake, rest, e);
    CompareIsTotalOrder(s, e.node, head.node, e.node);
    forall k | 0 <= k < |tail| ensures Compare(s, fake, head.node, tail[k].node) < 0 {
      if tail[k] != e {
        HeadBelowRest(s, fake, sorted, tail[k]);
      }
    }
    SortedCons(s, fake, head, tail);
  }

  /** The first key of a sorted sequence ranks below every later one. */
  lemma HeadBelowRest<T, V>(s: GraphState<T, V>, fake: map<T, int>, sorted: seq<Entry<T, V>>, x: Entry<T, V>)
    requires Sorted(s, fake, sorted) && sorted != [] && x in sorted[1..]
    ensures Comparable(s, fake, x.node) && Compare(s, fake, sorted[0].node, x.node) < 0
  {
    var m :| 0 <= m < |sorted| - 1 && sorted[1..][m] == x;
    assert sorted[m + 1] == x;
  }

  /** The loop of getUnvaluedNodesSorted over a prefix of the node list. */
  function Unvalued<T, V(==)>(s: GraphState<T, V>, fake: map<T, int>, nodes: seq<T>): (r: seq<Entry<T, V>>)
    requires fake == FakeOrdering(s.topology.allNodes)
    requires forall n :: n in nodes ==> Comparable(s, fake, n)
    ensures AllComparable(s, fake, r)
    ensures forall x :: x in r ==> x.node in nodes && Eligible(s, x.node) && x.colours == Candidates(s, x.node)
    ensures forall n :: n in nodes && Eligible(s, n) ==> exists x :: x in r && x.node == n
    decreases |nodes|
  {
    if nodes == [] then []
    else
      var init := nodes[..|nodes| - 1];
      var node := nodes[|nodes| - 1];
      assert forall n :: n in nodes ==> n in init || n == node;
      var acc := Unvalued(s, fake, init);
      assert Comparable(s, fake, node);
      if s.Colour(node).None? && Candidates(s, node) != [] then
        var r := Put(s, fake, acc, Entry(node, Candidates(s, node)));
        assert forall n :: n in init && Eligible(s, n) && n != node ==> exists x :: x in r && x.node == n by {
          forall n | n in init && Eligible(s, n) && n != node ensures exists x :: x in r && x.node == n {
            var x :| x in acc && x.node == n;
            assert x in r;
          }
        }
        r
      else acc
  }

  /** The map getUnvaluedNodesSorted returns, in key order. */
  function UnvaluedNodesSorted<T, V(==)>(s: GraphState<T, V>): seq<Entry<T, V>>
    requires s.topology.WellFormed()
  {
    Unvalued(s, FakeOrdering(s.topology.allNodes), s.topology.allNodes)
  }

  lemma {:induction false} UnvaluedSorted<T, V>(s: GraphState<T, V>, nodes: seq<T>)
    requires forall n :: n in nodes ==> Comparable(s, FakeOrdering(s.topology.allNodes), n)
    ensures Sorted(s, FakeOrdering(s.topology.allNodes), Unvalued(s, FakeOrdering(s.topology.allNodes), nodes))
    decreases |nodes|
  {
    var fake := FakeOrdering(s.topology.allNodes);
    if nodes != [] {
      var init := nodes[..|nodes| - 1];
      var node := nodes[|nodes| - 1];
      assert node in nodes;
      assert forall n :: n in init ==> n in nodes;
      UnvaluedSorted(s, init);
      if s.Colour(node).None? && Candidates(s, node) != [] {
        PutKeepsSorted(s, fake, Unvalued(s, fake, init), Entry(node, Candidates(s, node)));
      }
    }
  }

  /**
   * On a well-formed topology the result's keys are exactly the
   * uncoloured nodes with a non-empty candidate list, each once, each
   * mapped to its candidates, in ascending order of candidate count and
   * then of position.
   */
  lemma UnvaluedNodesSortedSpec<T, V>(s: GraphState<T, V>)
    requires s.topology.WellFormed()
    ensures var r := UnvaluedNodesSorted(s);
      var fake := FakeOrdering(s.topology.allNodes);
      && Sorted(s, fake, r)
      && (forall x :: x in r ==> x.node in s.topology.allNodes && Eligible(s, x.node) && x.colours == Candidates(s, x.node))
      && (forall n :: n in s.topology.allNodes && Eligible(s, n) ==> exists x :: x in r && x.node == n)
      && (forall i, j :: 0 <= i < j < |r| ==>
            |r[i].colours| < |r[j].colours| || (|r[i].colours| == |r[j].colours| && fake[r[i].node] < fake[r[j].node]))
  {
    UnvaluedSorted(s, s.topology.allNodes);
  }

  /** Every node of a well-formed topology can be ranked. */
  lemma AllNodesComparable<T, V>(s: GraphState<T, V>, n: T)
    requires s.topology.WellFormed() && n in s.topology.allNodes
    ensures Comparable(s, FakeOrdering(s.topology.allNodes), n)
  {
  }

  /**
   * The first key is the best square: no eligible node has fewer
   * candidates, and none with as many comes earlier in the node list.
   */
  lemma FirstKeyIsBest<T, V>(s: GraphState<T, V>, n: T)
    requires s.topology.WellFormed()
    requires n in s.topology.allNodes && Eligible(s, n)
    ensures UnvaluedNodesSorted(s) != []
    ensures var first := UnvaluedNodesSorted(s)[0].node;
      var fake := FakeOrdering(s.topology.allNodes);
      |Candidates(s, first)| < |Candidates(s, n)|
      || (|Candidates(s, first)| == |Candidates(s, n)| && fake[first] <= fake[n])
  {
    UnvaluedNodesSortedSpec(s);
    var r := UnvaluedNodesSorted(s);
    var x :| x in r && x.node == n;
    var j :| 0 <= j < |r| && r[j] == x;
  }

  /**
   * BacktrackableImpl: a graph and the index of each of its nodes.
   */
  class Backtrackable<T(==), V(==)> {
    const graph: ColourableGraph<T, V>
    var fakeOrdering: map<T, int>

    constructor (graph: ColourableGraph<T, V>)
      ensures this.graph == graph
      ensures fakeOrdering == FakeOrdering(graph.topology.allNodes)
    {
      this.graph := graph;
      fakeOrdering := map[];
      new;
      ComputeFakeOrdering();
    }

    /** _computeFakeOrdering: put each node with a running counter. */
    method ComputeFakeOrdering()
      requires fakeOrdering == map[]
      modifies this`fakeOrdering
      ensures fakeOrdering == FakeOrdering(graph.topology.allNodes)
    {
      var nodes := graph.topology.allNodes;
      var i := 0;
      while i < |nodes|
        invariant 0 <= i <= |nodes|
        invariant fakeOrdering == FakeOrdering(nodes[..i])
      {
        assert nodes[..i + 1][..i] == nodes[..i];
        fakeOrdering := fakeOrdering[nodes[i] := i];
        i := i + 1;
      }
      assert nodes[..i] == nodes;
    }

    /**
     * getUnvaluedNodesSorted: for each node without a colour, fetch its
     * candidates and insert the non-empty ones into the sorted map. Only
     * the graph's caches change.
     */
    method GetUnvaluedNodesSorted() returns (result: seq<Entry<T, V>>)
      requires graph.Valid() && graph.topology.WellFormed()
      requires fakeOrdering == FakeOrdering(graph.topology.allNodes)
      modifies graph`possibleColoursCache, graph`neighbourColoursCache
      ensures graph.Valid() && graph.colours == old(graph.colours)
      ensures result == UnvaluedNodesSorted(graph.State())
    {
      var nodes := graph.topology.allNodes;
      result := [];
      for i := 0 to |nodes|
        invariant graph.Valid() && graph.colours == old(graph.colours)
        invariant result == Unvalued(graph.State(), fakeOrdering, nodes[..i])
      {
        assert nodes[..i + 1][..i] == nodes[..i];
        var node := nodes[i];
        if graph.GetColour(node).None? {
          var possibleColours := graph.GetPossibleColours(node);
          if possibleColours.value != [] {
            result := Put(graph.State(), fakeOrdering, result, Entry(node, possibleColours.value));
          }
        }
      }
      assert nodes[..|nodes|] == nodes;
    }
  }
}
