/**
 * A graph topology as a value (src/gtf/math/graph/GraphTopology.java):
 * getAllNodes as a sequence, getNeighbours as a lookup in a map from node
 * to neighbour list, getNodeCount as a number.
 */
module Topologies {
  import opened Wrappers
  import opened JavaPlatform

  datatype Topology<T> = Topology(allNodes: seq<T>, neighbours: map<T, seq<T>>, nodeCount: int)
  {
    /**
     * The contract every concrete topology keeps: the listed nodes are
     * exactly the ones with a neighbour list, every neighbour is itself a
     * node, and the node count is the number of distinct nodes.
     */
    ghost predicate WellFormed()
    {
      && (forall n :: n in allNodes ==> n in neighbours)
      && (forall n :: n in neighbours ==> n in allNodes)
      && (forall n, b :: n in neighbours && b in neighbours[n] ==> b in neighbours)
      && nodeCount == |neighbours.Keys|
    }

    ghost predicate Symmetric() { SymmetricMap(neighbours) }

    ghost predicate Irreflexive() { IrreflexiveMap(neighbours) }

    /**
     * getNeighbours: the stored list; an address with no entry makes the
     * implementations wrap a null collection, which throws.
     */
    function Neighbours(n: T): (r: Result<seq<T>, JavaException>)
      ensures r.Ok? <==> n in neighbours
      ensures r.Ok? ==> r.value == neighbours[n]
    {
      if n in neighbours then Ok(neighbours[n]) else Err(NullPointerException)
    }
  }

  /** Every listed neighbour has an entry, and lists the node back. */
  ghost predicate SymmetricMap<T>(neighbours: map<T, seq<T>>)
  {
    forall a, b :: a in neighbours && b in neighbours[a] ==> b in neighbours && a in neighbours[b]
  }

  /** No node is its own neighbour. */
  ghost predicate IrreflexiveMap<T>(neighbours: map<T, seq<T>>)
  {
    forall a :: a in neighbours ==> a !in neighbours[a]
  }

  /** No entry of `s` repeats. */
  ghost predicate Distinct<T>(s: seq<T>)
  {
    forall i, j :: 0 <= i < j < |s| ==> s[i] != s[j]
  }

  /** A sequence without repeats has as many distinct elements as entries. */
  lemma {:induction false} DistinctCard<A>(s: seq<A>)
    requires Distinct(s)
    ensures |set x | x in s| == |s|
  {
    if |s| > 0 {
      var init := s[..|s| - 1];
      DistinctCard(init);
      assert (set x | x in s) == (set x | x in init) + {s[|s| - 1]};
      assert s[|s| - 1] !in init;
    }
  }
}
