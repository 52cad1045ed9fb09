/**
 * The cartesian product of two topologies
 * (src/gtf/math/graph/impl/CartesianProductGraphTopology.java): node
 * (t, u) is adjacent to (t', u) for every neighbour t' of t and to (t, u')
 * for every neighbour u' of u.
 */
module CartesianProducts {
  import opened Wrappers
  import opened JavaPlatform
  import opened Pairs
  import opened Topologies

  /** The constructed topology: the node count and the neighbour map. */
  datatype CartesianProduct<T(==), U(==)> = CartesianProduct(nodeCount: Int32, neighbours: map<Pair<T, U>, seq<Pair<T, U>>>)
  {
    /** getAllNodes: the key set of the map, in no promised order. */
    function AllNodes(): set<Pair<T, U>> { neighbours.Keys }

    /** getNodeCount. */
    function NodeCount(): Int32 { nodeCount }

    /** getNeighbours: a missing key wraps a null collection, which throws. */
    function Neighbours(n: Pair<T, U>): (r: Result<seq<Pair<T, U>>, JavaException>)
      ensures r.Ok? <==> n in neighbours
      ensures r.Ok? ==> r.value == neighbours[n]
      ensures r.Err? ==> r.error == NullPointerException
    {
      if n in neighbours then Ok(neighbours[n]) else Err(NullPointerException)
    }
  }

  /** The pair (t, u) with both components non-null. */
  function Node<T, U>(t: T, u: U): Pair<T, U> { Pair(Some(t), Some(u)) }

  /** (t', u) for each t' in `ts`, in order. */
  function Firsts<T, U>(ts: seq<T>, u: U): (r: seq<Pair<T, U>>)
    ensures |r| == |ts|
    ensures forall i :: 0 <= i < |ts| ==> r[i] == Node(ts[i], u)
  {
    seq(|ts|, i requires 0 <= i < |ts| => Node(ts[i], u))
  }

  /** (t, u') for each u' in `us`, in order. */
  function Seconds<T, U>(t: T, us: seq<U>): (r: seq<Pair<T, U>>)
    ensures |r| == |us|
    ensures forall i :: 0 <= i < |us| ==> r[i] == Node(t, us[i])
  {
    seq(|us|, i requires 0 <= i < |us| => Node(t, us[i]))
  }

  /**
   * The neighbour list the constructor stores for (t, u): first the
   * neighbours of t paired with u, then t paired with the neighbours of u.
   */
  function ProductNeighbours<T, U>(x: Topology<T>, y: Topology<U>, t: T, u: U): (r: seq<Pair<T, U>>)
    requires t in x.neighbours && u in y.neighbours
    ensures |r| == |x.neighbours[t]| + |y.neighbours[u]|
  {
    Firsts(x.neighbours[t], u) + Seconds(t, y.neighbours[u])
  }

  /** The lookups the constructor makes all succeed. */
  ghost predicate Lookups<T, U>(x: Topology<T>, y: Topology<U>)
  {
    && (forall t :: t in x.allNodes ==> t in x.neighbours)
    && (|x.allNodes| > 0 ==> forall u :: u in y.allNodes ==> u in y.neighbours)
  }

  /**
   * What _populateNeighbours leaves in the map: one key (t, u) for every
   * listed t of x and u of y, holding its product neighbour list.
   */
  ghost predicate Populated<T, U>(x: Topology<T>, y: Topology<U>, m: map<Pair<T, U>, seq<Pair<T, U>>>)
  {
    && (forall k :: k in m ==> k.x.Some? && k.y.Some? && k.x.value in x.allNodes && k.y.value in y.allNodes)
    && (forall k :: k in m ==> k.x.value in x.neighbours && k.y.value in y.neighbours
                               && m[k] == ProductNeighbours(x, y, k.x.value, k.y.value))
    && (forall t, u :: t in x.allNodes && u in y.allNodes ==> Node(t, u) in m)
  }

  /** Every key of `m` pairs a node of `xs` with a node of `ys`. */
  ghost predicate KeysWithin<T, U>(m: map<Pair<T, U>, seq<Pair<T, U>>>, xs: seq<T>, ys: seq<U>)
  {
    forall k :: k in m ==> k.x.Some? && k.y.Some? && k.x.value in xs && k.y.value in ys
  }

  /** Every entry of `m` holds the product neighbour list of its key. */
  ghost predicate ProductValues<T, U>(x: Topology<T>, y: Topology<U>, m: map<Pair<T, U>, seq<Pair<T, U>>>)
  {
    forall k :: k in m ==> k.x.Some? && k.y.Some? && k.x.value in x.neighbours && k.y.value in y.neighbours
                           && m[k] == ProductNeighbours(x, y, k.x.value, k.y.value)
  }

  /**
   * The constructor: the node count is the product of the factors' counts
   * (Java int multiplication). The map is sized with that count, so a
   * negative product makes `new HashMap` throw before anything is looked
   * up. Otherwise the nested loops over the factors' nodes store each
   * product node's neighbour list; a factor node without a neighbour list
   * makes the lookup throw.
   */
  method New<T, U>(x: Topology<T>, y: Topology<U>) returns (r: Result<CartesianProduct<T, U>, JavaException>)
    ensures r.Ok? <==> Wrap32(x.nodeCount * y.nodeCount) >= 0 && Lookups(x, y)
    ensures Wrap32(x.nodeCount * y.nodeCount) < 0 ==>
              r == Err(IllegalArgumentException("Illegal initial capacity: " + IntToString(Wrap32(x.nodeCount * y.nodeCount))))
    ensures Wrap32(x.nodeCount * y.nodeCount) >= 0 && !Lookups(x, y) ==> r == Err(NullPointerException)
    ensures r.Ok? ==> r.value.nodeCount == Wrap32(x.nodeCount * y.nodeCount)
    ensures r.Ok? ==> Populated(x, y, r.value.neighbours)
  {
    var nodeCount := Wrap32(x.nodeCount * y.nodeCount);
    if nodeCount < 0 {
      return Err(IllegalArgumentException("Illegal initial capacity: " + IntToString(nodeCount)));
    }
    var neighbours := Populate(x, y);
    match neighbours
    case Err(e) =>
      return Err(e);
    case Ok(m) =>
      return Ok(CartesianProduct(nodeCount, m));
  }

  /** _populateNeighbours: the outer loop over the nodes of x. */
  method Populate<T, U>(x: Topology<T>, y: Topology<U>) returns (r: Result<map<Pair<T, U>, seq<Pair<T, U>>>, JavaException>)
    ensures r.Ok? <==> Lookups(x, y)
    ensures r.Err? ==> r.error == NullPointerException
    ensures r.Ok? ==> Populated(x, y, r.value)
  {
    var neighbours: map<Pair<T, U>, seq<Pair<T, U>>> := map[];
    var xs := x.allNodes;
    var ys := y.allNodes;
    for i := 0 to |xs|
      invariant forall k :: 0 <= k < i ==> xs[k] in x.neighbours
      invariant i > 0 ==> forall u :: u in ys ==> u in y.neighbours
      invariant KeysWithin(neighbours, xs[..i], ys) && ProductValues(x, y, neighbours)
      invariant forall k, u :: 0 <= k < i && u in ys ==> Node(xs[k], u) in neighbours
    {
      var t := xs[i];
      var tNeighbours := x.Neighbours(t);
      if tNeighbours.Err? {
        return Err(tNeighbours.error);
      }
      var row := PopulateRow(x, y, t, ys, neighbours);
      if row.Err? {
        return Err(row.error);
      }
      assert xs[..i + 1] == xs[..i] + [t];
      forall k, u | 0 <= k < i + 1 && u in ys ensures Node(xs[k], u) in row.value {
        if k < i {
          assert Node(xs[k], u) in neighbours;
        }
      }
      neighbours := row.value;
    }
    assert xs[..|xs|] == xs;
    return Ok(neighbours);
  }

  /** One pass of the inner loop: the entries (t, u) for every u of `ys`. */
  method PopulateRow<T, U>(x: Topology<T>, y: Topology<U>, t: T, ys: seq<U>, m: map<Pair<T, U>, seq<Pair<T, U>>>)
    returns (r: Result<map<Pair<T, U>, seq<Pair<T, U>>>, JavaException>)
    requires t in x.neighbours && ProductValues(x, y, m)
    ensures r.Ok? <==> forall u :: u in ys ==> u in y.neighbours
    ensures r.Err? ==> r.error == NullPointerException
    ensures r.Ok? ==> ProductValues(x, y, r.value)
    ensures r.Ok? ==> forall k :: k in r.value ==> k in m || (k.x == Some(t) && k.y.Some? && k.y.value in ys)
    ensures r.Ok? ==> (forall k :: k in m ==> k in r.value) && forall u :: u in ys ==> Node(t, u) in r.value
  {
    var tNeighbours := x.neighbours[t];
    var neighbours := m;
    for j := 0 to |ys|
      invariant forall k :: 0 <= k < j ==> ys[k] in y.neighbours
      invariant ProductValues(x, y, neighbours)
      invariant forall k :: k in neighbours ==> k in m || (k.x == Some(t) && k.y.Some? && k.y.value in ys[..j])
      invariant forall k :: k in m ==> k in neighbours
      invariant forall k :: 0 <= k < j ==> Node(t, ys[k]) in neighbours
    {
      var u := ys[j];
      var uNeighbours := y.Neighbours(u);
      if uNeighbours.Err? {
        return Err(uNeighbours.error);
      }
      var list := ProductList(t, tNeighbours, u, uNeighbours.value);
      assert ys[..j + 1] == ys[..j] + [u];
      neighbours := neighbours[Node(t, u) := list];
    }
    assert ys[..|ys|] == ys;
    return Ok(neighbours);
  }

  /** The list for one product node, built by the two inner loops. */
  method ProductList<T, U>(t: T, tNeighbours: seq<T>, u: U, uNeighbours: seq<U>) returns (list: seq<Pair<T, U>>)
    ensures list == Firsts(tNeighbours, u) + Seconds(t, uNeighbours)
  {
    list := [];
    for i := 0 to |tNeighbours|
      invariant list == Firsts(tNeighbours[..i], u)
    {
      list := list + [Node(tNeighbours[i], u)];
    }
    assert tNeighbours[..|tNeighbours|] == tNeighbours;
    ghost var firsts := list;
    for i := 0 to |uNeighbours|
      invariant list == firsts + Seconds(t, uNeighbours[..i])
    {
      list := list + [Node(t, uNeighbours[i])];
    }
    assert uNeighbours[..|uNeighbours|] == uNeighbours;
  }

  /** The product of two symmetric topologies is symmetric. */
  lemma ProductSymmetric<T, U>(x: Topology<T>, y: Topology<U>, m: map<Pair<T, U>, seq<Pair<T, U>>>)
    requires x.WellFormed() && y.WellFormed() && x.Symmetric() && y.Symmetric()
    requires Populated(x, y, m)
    ensures SymmetricMap(m)
  {
    assert SymmetricFactors(x, y, m);
    forall a, b | a in m && b in m[a] ensures b in m && a in m[b] {
      EdgeBack(x, y, m, a, b);
    }
  }

  /** The hypotheses of ProductSymmetric, as one fact. */
  ghost predicate SymmetricFactors<T, U>(x: Topology<T>, y: Topology<U>, m: map<Pair<T, U>, seq<Pair<T, U>>>)
  {
    x.WellFormed() && y.WellFormed() && x.Symmetric() && y.Symmetric() && Populated(x, y, m)
  }

  /** Every edge of the product has its reverse edge. */
  lemma EdgeBack<T, U>(x: Topology<T>, y: Topology<U>, m: map<Pair<T, U>, seq<Pair<T, U>>>, a: Pair<T, U>, b: Pair<T, U>)
    requires SymmetricFactors(x, y, m) && a in m && b in m[a]
    ensures b in m && a in m[b]
  {
    var i :| 0 <= i < |m[a]| && m[a][i] == b;
    if i < |x.neighbours[a.x.value]| {
      FirstEdgeBack(x, y, m, a, i);
    } else {
      SecondEdgeBack(x, y, m, a, i);
    }
  }

  /** An edge (t, u) -> (t', u) along x has its reverse edge. */
  lemma FirstEdgeBack<T, U>(x: Topology<T>, y: Topology<U>, m: map<Pair<T, U>, seq<Pair<T, U>>>, a: Pair<T, U>, i: int)
    requires x.WellFormed() && y.WellFormed() && x.Symmetric()
    requires Populated(x, y, m) && a in m
    requires 0 <= i < |x.neighbours[a.x.value]|
    ensures m[a][i] in m && a in m[m[a][i]]
  {
    var t, u := a.x.value, a.y.value;
    var tn := x.neighbours[t][i];
    assert m[a][i] == Node(tn, u);
    var k :| 0 <= k < |x.neighbours[tn]| && x.neighbours[tn][k] == t;
    assert m[Node(tn, u)][k] == a;
  }

  /** An edge (t, u) -> (t, u') along y has its reverse edge. */
  lemma SecondEdgeBack<T, U>(x: Topology<T>, y: Topology<U>, m: map<Pair<T, U>, seq<Pair<T, U>>>, a: Pair<T, U>, i: int)
    requires x.WellFormed() && y.WellFormed() && y.Symmetric()
    requires Populated(x, y, m) && a in m
    requires |x.neighbours[a.x.value]| <= i < |m[a]|
    ensures m[a][i] in m && a in m[m[a][i]]
  {
    var t, u := a.x.value, a.y.value;
    var un := y.neighbours[u][i - |x.neighbours[t]|];
    assert m[a][i] == Node(t, un);
    var k :| 0 <= k < |y.neighbours[un]| && y.neighbours[un][k] == u;
    assert m[Node(t, un)][|x.neighbours[t]| + k] == a;
  }

  /** The product of two irreflexive topologies is irreflexive. */
  lemma ProductIrreflexive<T, U>(x: Topology<T>, y: Topology<U>, m: map<Pair<T, U>, seq<Pair<T, U>>>)
    requires IrreflexiveMap(x.neighbours) && IrreflexiveMap(y.neighbours)
    requires Populated(x, y, m)
    ensures IrreflexiveMap(m)
  {
    forall a | a in m ensures a !in m[a] {
      var t, u := a.x.value, a.y.value;
      forall i | 0 <= i < |m[a]| ensures m[a][i] != a {
        if i < |x.neighbours[t]| {
          assert m[a][i] == Node(x.neighbours[t][i], u);
        } else {
          assert m[a][i] == Node(t, y.neighbours[u][i - |x.neighbours[t]|]);
        }
      }
    }
  }

  /** The product nodes of two node sets. */
  ghost function Product<T, U>(a: set<T>, b: set<U>): set<Pair<T, U>>
  {
    set t, u | t in a && u in b :: Node(t, u)
  }

  /**
   * With well-formed factors, the number of keys the constructor stores is
   * the product of the factors' node counts, which is what getNodeCount
   * reports whenever that product fits in a Java int.
   */
  lemma NodeCountIsKeyCount<T, U>(x: Topology<T>, y: Topology<U>, m: map<Pair<T, U>, seq<Pair<T, U>>>)
    requires x.WellFormed() && y.WellFormed() && Populated(x, y, m)
    ensures |m.Keys| == x.nodeCount * y.nodeCount
    ensures IsInt32(x.nodeCount * y.nodeCount) ==> Wrap32(x.nodeCount * y.nodeCount) == |m.Keys|
  {
    assert m.Keys == Product(x.neighbours.Keys, y.neighbours.Keys);
    ProductCard(x.neighbours.Keys, y.neighbours.Keys);
  }

  lemma {:induction false} ProductCard<T, U>(a: set<T>, b: set<U>)
    ensures |Product(a, b)| == |a| * |b|
    decreases |a|
  {
    if a != {} {
      var t :| t in a;
      var rest := a - {t};
      assert a == rest + {t};
      ProductCard(rest, b);
      RowCard(t, b);
      ProductSplit(t, rest, b);
      assert |a| * |b| == |rest| * |b| + |b|;
    }
  }

  lemma ProductSplit<T, U>(t: T, rest: set<T>, b: set<U>)
    requires t !in rest
    ensures |Product(rest + {t}, b)| == |Product(rest, b)| + |set u | u in b :: Node(t, u)|
  {
    var row := set u | u in b :: Node(t, u);
    assert Product(rest + {t}, b) == Product(rest, b) + row;
    assert Product(rest, b) !! row;
  }

  lemma {:induction false} RowCard<T, U>(t: T, b: set<U>)
    ensures |set u | u in b :: Node(t, u)| == |b|
    decreases |b|
  {
    if b != {} {
      var u :| u in b;
      RowCard(t, b - {u});
      assert (set v | v in b :: Node(t, v)) == (set v | v in b - {u} :: Node(t, v)) + {Node(t, u)};
    }
  }
}
