/**
 * What Solver.solve computes (src/gtf/puzzle/engine/Solver.java:83-109),
 * as a function of the puzzle's state: the solutions found, the events
 * fired, and the final value of the steps counter.
 */
module SolverSearch {
  import opened Wrappers
  import opened Topologies
  import opened ColourConstraints
  import opened ColourableGraphs
  import opened Backtracking

  /** The four notifications of SolverListener. */
  datatype EventKind = Invoked | TriedCell | FoundSolution | NoSolution

  /**
   * What one event reports: the puzzle it concerns (its state when the
   * event is fired), the recursion depth, the steps counter, and for a
   * tried cell the node and value tried.
   */
  datatype Notice<T, V> = Notice(kind: EventKind, puzzle: GraphState<T, V>, depth: int, steps: int,
                                 node: Option<T>, value: Option<V>)

  datatype Outcome<T, V> = Outcome(solutions: seq<GraphState<T, V>>, notices: seq<Notice<T, V>>, steps: int)

  /** The topology's nodes that have no colour yet. */
  function Uncoloured<T, V>(s: GraphState<T, V>): set<T>
  {
    set n | n in s.topology.allNodes && s.Colour(n).None?
  }

  /**
   * A candidate found for a node is accepted by setColour on a copy of
   * the graph, whether the copy checks the constraint or not.
   */
  lemma CandidateAccepted<T, V>(s: GraphState<T, V>, n: T, v: V)
    requires s.topology.WellFormed() && n in s.topology.allNodes
    requires PossibleColours(s, n).Ok? && v in Candidates(s, n)
    ensures SetColourSpec(Copy(s), n, Some(v)).Ok?
  {
    if s.constraint.UnalikeNeighbours? {
      UnalikePossibleColours(s, n, v);
      var c := Copy(s);
      forall b | b in s.topology.neighbours[n] ensures c.Colour(b) == s.Colour(b) {
        CopyColours(s, b);
      }
      UnalikeMeansNoNeighbourHasIt(c.topology, c.colours, n, v);
    }
  }

  /** The graph a branch recurses on: a copy of the puzzle with the node set to the value. */
  function Child<T, V(==)>(s: GraphState<T, V>, n: T, v: V): (r: GraphState<T, V>)
    requires s.topology.WellFormed() && n in s.topology.allNodes
    requires PossibleColours(s, n).Ok? && v in Candidates(s, n)
    ensures r.(colours := s.colours) == s
    ensures r.Colour(n) == Some(v)
  {
    CandidateAccepted(s, n, v);
    SetColourSpec(Copy(s), n, Some(v)).value
  }

  /** The child's colours: the puzzle's at every other topology node, and nothing else. */
  lemma ChildColours<T, V>(s: GraphState<T, V>, n: T, v: V, m: T)
    requires s.topology.WellFormed() && n in s.topology.allNodes
    requires PossibleColours(s, n).Ok? && v in Candidates(s, n)
    ensures Child(s, n, v).Colour(m) == (if m == n then Some(v) else if m in s.topology.allNodes then s.Colour(m) else None)
    ensures m in Child(s, n, v).colours <==> m == n || (m in s.topology.allNodes && s.Colour(m).Some?)
  {
    CandidateAccepted(s, n, v);
    CopyColours(s, m);
    if m != n {
      SetColourLeavesOthers(Copy(s), n, Some(v), m);
    }
  }

  lemma ChildUncoloured<T, V>(s: GraphState<T, V>, n: T, v: V)
    requires s.topology.WellFormed() && n in s.topology.allNodes && s.Colour(n).None?
    requires PossibleColours(s, n).Ok? && v in Candidates(s, n)
    ensures Uncoloured(Child(s, n, v)) == Uncoloured(s) - {n}
    ensures n in Uncoloured(s)
  {
    forall m ensures m in Uncoloured(Child(s, n, v)) <==> m in Uncoloured(s) - {n} {
      ChildColours(s, n, v, m);
    }
  }

  /**
   * solve(puzzle, depth) with the counter at `steps`: fire "invoked"; a
   * complete puzzle is its own solution; with no branchable node there is
   * none; otherwise branch on the first key and count one step after all
   * branches.
   */
  function Search<T, V(==)>(s: GraphState<T, V>, depth: int, steps: int): Outcome<T, V>
    requires s.topology.WellFormed()
    decreases |Uncoloured(s)|, 1, 0
  {
    var invoked := Notice(Invoked, s, depth, steps, None, None);
    if s.IsComplete() then
      Outcome([s], [invoked, Notice(FoundSolution, s, depth, steps, None, None)], steps)
    else
      var squares := UnvaluedNodesSorted(s);
      if squares == [] then
        Outcome([], [invoked, Notice(NoSolution, s, depth, steps, None, None)], steps)
      else
        UnvaluedNodesSortedSpec(s);
        assert squares[0] in squares;
        var best := squares[0].node;
        var o := Branch(s, best, squares[0].colours, depth, steps);
        Outcome(o.solutions, [invoked] + o.notices, o.steps + 1)
  }

  /**
   * The loop over the allowed values of the best square, up to the last
   * value: for each value in turn, fire "tried cell" for the child and
   * recurse on it one level deeper; the children's solutions are gathered
   * in order.
   */
  function Branch<T, V(==)>(s: GraphState<T, V>, best: T, values: seq<V>, depth: int, steps: int): Outcome<T, V>
    requires s.topology.WellFormed() && best in s.topology.allNodes && s.Colour(best).None?
    requires PossibleColours(s, best).Ok? && forall v :: v in values ==> v in Candidates(s, best)
    decreases |Uncoloured(s)|, 0, |values|
  {
    if values == [] then Outcome([], [], steps)
    else
      var init := values[..|values| - 1];
      var v := values[|values| - 1];
      var prev := Branch(s, best, init, depth, steps);
      var next := Child(s, best, v);
      ChildUncoloured(s, best, v);
      var tried := Notice(TriedCell, next, depth, prev.steps, Some(best), Some(v));
      var sub := Search(next, depth + 1, prev.steps);
      Outcome(prev.solutions + sub.solutions, prev.notices + [tried] + sub.notices, sub.steps)
  }

  /** A frame whose puzzle is incomplete and has no square left to try. */
  lemma SearchDeadEnd<T, V>(s: GraphState<T, V>, depth: int, steps: int)
    requires s.topology.WellFormed() && !s.IsComplete() && UnvaluedNodesSorted(s) == []
    ensures Search(s, depth, steps)
         == Outcome([], [Notice(Invoked, s, depth, steps, None, None), Notice(NoSolution, s, depth, steps, None, None)], steps)
  {
  }

  /** A frame that branches on the best square. */
  lemma SearchBranches<T, V>(s: GraphState<T, V>, depth: int, steps: int)
    requires s.topology.WellFormed() && !s.IsComplete() && UnvaluedNodesSorted(s) != []
    ensures var e := UnvaluedNodesSorted(s)[0];
      && e.node in s.topology.allNodes && s.Colour(e.node).None? && PossibleColours(s, e.node).Ok?
      && (forall v :: v in e.colours ==> v in Candidates(s, e.node))
      && var o := Branch(s, e.node, e.colours, depth, steps);
         Search(s, depth, steps) == Outcome(o.solutions, [Notice(Invoked, s, depth, steps, None, None)] + o.notices, o.steps + 1)
  {
    UnvaluedNodesSortedSpec(s);
    assert UnvaluedNodesSorted(s)[0] in UnvaluedNodesSorted(s);
  }

  /** One more value of the branching loop, stated on its parts. */
  lemma BranchStep<T, V>(s: GraphState<T, V>, best: T, values: seq<V>, i: nat, depth: int, steps: int)
    requires s.topology.WellFormed() && best in s.topology.allNodes && s.Colour(best).None?
    requires PossibleColours(s, best).Ok? && forall v :: v in values ==> v in Candidates(s, best)
    requires i < |values|
    ensures values[i] in Candidates(s, best)
    ensures var prev := Branch(s, best, values[..i], depth, steps);
      var next := Child(s, best, values[i]);
      var sub := Search(next, depth + 1, prev.steps);
      Branch(s, best, values[..i + 1], depth, steps)
        == Outcome(prev.solutions + sub.solutions,
                   prev.notices + [Notice(TriedCell, next, depth, prev.steps, Some(best), Some(values[i]))] + sub.notices,
                   sub.steps)
  {
    assert values[i] in values;
    assert values[..i + 1][..i] == values[..i];
  }

  /** A set inside another set of the same size is that set. */
  lemma {:induction false} SubsetOfSameSize<X>(a: set<X>, b: set<X>)
    requires a <= b
    ensures |a| <= |b|
    ensures |a| == |b| ==> a == b
    decreases |a|
  {
    if a != {} {
      var x :| x in a;
      SubsetOfSameSize(a - {x}, b - {x});
      if |a| == |b| {
        assert a == (a - {x}) + {x};
        assert b == (b - {x}) + {x};
      }
    }
  }

  /** Only topology nodes have entries, and no entry is null: what copyOf produces. */
  ghost predicate Clean<T, V>(s: GraphState<T, V>)
  {
    forall n :: n in s.colours ==> n in s.topology.allNodes && s.colours[n].Some?
  }

  /** For a clean graph, complete means every topology node has a colour. */
  lemma CleanCompleteness<T, V>(s: GraphState<T, V>)
    requires s.topology.WellFormed() && Clean(s)
    ensures s.IsComplete() <==> Uncoloured(s) == {}
  {
    var keys := s.topology.neighbours.Keys;
    assert s.colours.Keys <= keys;
    SubsetOfSameSize(s.colours.Keys, keys);
    if Uncoloured(s) == {} {
      forall n | n in keys ensures n in s.colours.Keys {
        assert n in s.topology.allNodes;
        assert n !in Uncoloured(s);
      }
      assert s.colours.Keys == keys;
    }
    if s.IsComplete() {
      assert s.colours.Keys == keys;
      forall n | n in s.topology.allNodes ensures s.Colour(n).Some? {
        assert n in keys;
      }
      assert Uncoloured(s) == {};
    }
  }

  lemma ChildIsClean<T, V>(s: GraphState<T, V>, n: T, v: V)
    requires s.topology.WellFormed() && n in s.topology.allNodes
    requires PossibleColours(s, n).Ok? && v in Candidates(s, n)
    ensures Clean(Child(s, n, v))
  {
    forall m | m in Child(s, n, v).colours ensures m in s.topology.allNodes && Child(s, n, v).colours[m].Some? {
      ChildColours(s, n, v, m);
    }
  }

  /**
   * A solution of `s`: the same graph parameters, complete, with every
   * colour `s` already had; when `s` was not complete, every topology
   * node coloured.
   */
  ghost predicate Extends<T, V>(s: GraphState<T, V>, t: GraphState<T, V>)
  {
    && t.(colours := s.colours) == s
    && t.IsComplete()
    && (forall n :: n in s.topology.allNodes && s.Colour(n).Some? ==> t.Colour(n) == s.Colour(n))
    && (!s.IsComplete() ==> forall n :: n in s.topology.allNodes ==> t.Colour(n).Some?)
  }

  /** Soundness: every graph solve returns is a solution of its input. */
  lemma {:induction false} SearchSound<T, V>(s: GraphState<T, V>, depth: int, steps: int)
    requires s.topology.WellFormed()
    ensures forall t :: t in Search(s, depth, steps).solutions ==> Extends(s, t)
    decreases |Uncoloured(s)|, 1, 0
  {
    if !s.IsComplete() {
      var squares := UnvaluedNodesSorted(s);
      if squares != [] {
        UnvaluedNodesSortedSpec(s);
        assert squares[0] in squares;
        BranchSound(s, squares[0].node, squares[0].colours, depth, steps);
      }
    }
  }

  lemma {:induction false} BranchSound<T, V>(s: GraphState<T, V>, best: T, values: seq<V>, depth: int, steps: int)
    requires s.topology.WellFormed() && best in s.topology.allNodes && s.Colour(best).None?
    requires PossibleColours(s, best).Ok? && forall v :: v in values ==> v in Candidates(s, best)
    requires !s.IsComplete()
    ensures forall t :: t in Branch(s, best, values, depth, steps).solutions ==> Extends(s, t)
    decreases |Uncoloured(s)|, 0, |values|
  {
    if values != [] {
      var init := values[..|values| - 1];
      var v := values[|values| - 1];
      BranchSound(s, best, init, depth, steps);
      var prev := Branch(s, best, init, depth, steps);
      var next := Child(s, best, v);
      ChildUncoloured(s, best, v);
      ChildIsClean(s, best, v);
      var sub := Search(next, depth + 1, prev.steps);
      SearchSound(next, depth + 1, prev.steps);
      forall t | t in sub.solutions ensures Extends(s, t) {
        assert Extends(next, t);
        forall n | n in s.topology.allNodes ensures t.Colour(n).Some? && (s.Colour(n).Some? ==> t.Colour(n) == s.Colour(n)) {
          ChildColours(s, best, v, n);
          if next.IsComplete() {
            CleanCompleteness(next);
            assert n !in Uncoloured(next);
          }
        }
      }
    }
  }

  /** No two neighbours share a colour. */
  ghost predicate Proper<T, V>(s: GraphState<T, V>)
  {
    forall a, b :: a in s.topology.neighbours && b in s.topology.neighbours[a] && s.Colour(a).Some? ==> s.Colour(b) != s.Colour(a)
  }

  /** Colouring a node with one of its candidates keeps an unalike colouring proper. */
  lemma ChildProper<T, V>(s: GraphState<T, V>, n: T, v: V)
    requires s.constraint.UnalikeNeighbours?
    requires s.topology.WellFormed() && s.topology.Symmetric() && s.topology.Irreflexive()
    requires n in s.topology.allNodes && PossibleColours(s, n).Ok? && v in Candidates(s, n)
    requires Proper(s)
    ensures Proper(Child(s, n, v))
  {
    var c := Child(s, n, v);
    UnalikePossibleColours(s, n, v);
    forall a, b | a in c.topology.neighbours && b in c.topology.neighbours[a] && c.Colour(a).Some?
      ensures c.Colour(b) != c.Colour(a)
    {
      ChildColours(s, n, v, a);
      ChildColours(s, n, v, b);
    }
  }

  /**
   * Under the unalike-neighbours constraint on a symmetric, irreflexive
   * topology, a proper puzzle has only proper solutions.
   */
  lemma {:induction false} SearchProper<T, V>(s: GraphState<T, V>, depth: int, steps: int)
    requires s.constraint.UnalikeNeighbours?
    requires s.topology.WellFormed() && s.topology.Symmetric() && s.topology.Irreflexive()
    requires Proper(s)
    ensures forall t :: t in Search(s, depth, steps).solutions ==> Proper(t)
    decreases |Uncoloured(s)|, 1, 0
  {
    if !s.IsComplete() {
      var squares := UnvaluedNodesSorted(s);
      if squares != [] {
        UnvaluedNodesSortedSpec(s);
        assert squares[0] in squares;
        BranchProper(s, squares[0].node, squares[0].colours, depth, steps);
      }
    }
  }

  lemma {:induction false} BranchProper<T, V>(s: GraphState<T, V>, best: T, values: seq<V>, depth: int, steps: int)
    requires s.constraint.UnalikeNeighbours?
    requires s.topology.WellFormed() && s.topology.Symmetric() && s.topology.Irreflexive()
    requires best in s.topology.allNodes && s.Colour(best).None?
    requires PossibleColours(s, best).Ok? && forall v :: v in values ==> v in Candidates(s, best)
    requires Proper(s)
    ensures forall t :: t in Branch(s, best, values, depth, steps).solutions ==> Proper(t)
    decreases |Uncoloured(s)|, 0, |values|
  {
    if values != [] {
      var init := values[..|values| - 1];
      var v := values[|values| - 1];
      BranchProper(s, best, init, depth, steps);
      var prev := Branch(s, best, init, depth, steps);
      ChildUncoloured(s, best, v);
      ChildProper(s, best, v);
      SearchProper(Child(s, best, v), depth + 1, prev.steps);
    }
  }

  /**
   * A proper colouring of every topology node with colours of the space
   * that keeps the colours the puzzle already has.
   */
  ghost predicate Completion<T, V>(s: GraphState<T, V>, c: map<T, V>)
  {
    && (forall n :: n in s.topology.allNodes ==> n in c && c[n] in s.colourSpace)
    && (forall n :: n in s.topology.allNodes && s.Colour(n).Some? ==> c[n] == s.Colour(n).value)
    && (forall a, b :: a in s.topology.neighbours && b in s.topology.neighbours[a] && a in c && b in c ==> c[a] != c[b])
  }

  ghost predicate Matches<T, V>(t: GraphState<T, V>, c: map<T, V>)
  {
    forall n :: n in t.topology.allNodes ==> n in c && t.Colour(n) == Some(c[n])
  }

  /** Each completion's colour at an uncoloured node is one of that node's candidates. */
  lemma CompletionIsCandidate<T, V>(s: GraphState<T, V>, c: map<T, V>, n: T)
    requires s.constraint.UnalikeNeighbours? && s.topology.WellFormed()
    requires Completion(s, c) && n in s.topology.allNodes
    ensures PossibleColours(s, n).Ok? && c[n] in Candidates(s, n)
  {
    UnalikePossibleColours(s, n, c[n]);
  }

  /**
   * Completeness: under the unalike-neighbours constraint, every proper
   * completion of a clean puzzle is among the solutions solve returns.
   */
  lemma {:induction false} SearchComplete<T, V>(s: GraphState<T, V>, depth: int, steps: int, c: map<T, V>)
    requires s.constraint.UnalikeNeighbours? && s.topology.WellFormed()
    requires Clean(s) && Completion(s, c)
    ensures exists t :: t in Search(s, depth, steps).solutions && Matches(t, c)
    decreases |Uncoloured(s)|, 1, 0, 0
  {
    CleanCompleteness(s);
    if s.IsComplete() {
      assert Matches(s, c) by {
        forall n | n in s.topology.allNodes ensures s.Colour(n) == Some(c[n]) {
          assert n !in Uncoloured(s);
        }
      }
      assert s in Search(s, depth, steps).solutions;
    } else {
      var n :| n in Uncoloured(s);
      CompletionIsCandidate(s, c, n);
      FirstKeyIsBest(s, n);
      var squares := UnvaluedNodesSorted(s);
      UnvaluedNodesSortedSpec(s);
      assert squares[0] in squares;
      var best := squares[0].node;
      CompletionIsCandidate(s, c, best);
      BranchComplete(s, best, squares[0].colours, depth, steps, c);
    }
  }

  /** A completion that picks `v` at `n` is also a completion of the child that sets `v` there. */
  lemma CompletionOfChild<T, V>(s: GraphState<T, V>, n: T, v: V, c: map<T, V>)
    requires s.constraint.UnalikeNeighbours? && s.topology.WellFormed()
    requires n in s.topology.allNodes && PossibleColours(s, n).Ok? && v in Candidates(s, n)
    requires Completion(s, c) && c[n] == v
    ensures Clean(Child(s, n, v)) && Completion(Child(s, n, v), c)
  {
    var next := Child(s, n, v);
    ChildIsClean(s, n, v);
    forall m | m in next.topology.allNodes && next.Colour(m).Some? ensures c[m] == next.Colour(m).value {
      ChildColours(s, n, v, m);
    }
  }

  /** The child that takes the completion's colour at `n` has that completion among its solutions. */
  lemma {:induction false} ChildComplete<T, V>(s: GraphState<T, V>, n: T, v: V, depth: int, steps: int, c: map<T, V>)
    requires s.constraint.UnalikeNeighbours? && s.topology.WellFormed()
    requires n in s.topology.allNodes && s.Colour(n).None?
    requires PossibleColours(s, n).Ok? && v in Candidates(s, n)
    requires Clean(s) && Completion(s, c) && c[n] == v
    ensures Child(s, n, v).topology.WellFormed()
    ensures exists t :: t in Search(Child(s, n, v), depth, steps).solutions && Matches(t, c)
    decreases |Uncoloured(s)|, 0, 0, 0
  {
    ChildUncoloured(s, n, v);
    CompletionOfChild(s, n, v, c);
    SearchComplete(Child(s, n, v), depth, steps, c);
  }

  /** The solutions part of one step of the value loop. */
  lemma BranchSolutionsStep<T, V>(s: GraphState<T, V>, best: T, values: seq<V>, depth: int, steps: int)
    requires s.topology.WellFormed() && best in s.topology.allNodes && s.Colour(best).None?
    requires PossibleColours(s, best).Ok? && forall v :: v in values ==> v in Candidates(s, best)
    requires values != []
    ensures values[|values| - 1] in Candidates(s, best)
    ensures var prev := Branch(s, best, values[..|values| - 1], depth, steps);
      Branch(s, best, values, depth, steps).solutions
        == prev.solutions + Search(Child(s, best, values[|values| - 1]), depth + 1, prev.steps).solutions
  {
    assert values[|values| - 1] in values;
  }

  lemma {:induction false} BranchComplete<T, V>(s: GraphState<T, V>, best: T, values: seq<V>, depth: int, steps: int, c: map<T, V>)
    requires s.constraint.UnalikeNeighbours? && s.topology.WellFormed()
    requires best in s.topology.allNodes && s.Colour(best).None?
    requires PossibleColours(s, best).Ok? && forall v :: v in values ==> v in Candidates(s, best)
    requires Clean(s) && Completion(s, c) && c[best] in values
    ensures exists t :: t in Branch(s, best, values, depth, steps).solutions && Matches(t, c)
    decreases |Uncoloured(s)|, 0, |values|, 1
  {
    var i := |values| - 1;
    if values[i] == c[best] {
      LastValueComplete(s, best, values, depth, steps, c);
    } else {
      assert c[best] in values[..i] by {
        assert values == values[..i] + [values[i]];
      }
      BranchComplete(s, best, values[..i], depth, steps, c);
      var t :| t in Branch(s, best, values[..i], depth, steps).solutions && Matches(t, c);
      BranchSolutionsStep(s, best, values, depth, steps);
    }
  }

  /** When the last value tried is the completion's, the child's search finds it. */
  lemma {:induction false} LastValueComplete<T, V>(s: GraphState<T, V>, best: T, values: seq<V>, depth: int, steps: int, c: map<T, V>)
    requires s.constraint.UnalikeNeighbours? && s.topology.WellFormed()
    requires best in s.topology.allNodes && s.Colour(best).None?
    requires PossibleColours(s, best).Ok? && forall v :: v in values ==> v in Candidates(s, best)
    requires Clean(s) && Completion(s, c) && values != [] && values[|values| - 1] == c[best]
    ensures exists t :: t in Branch(s, best, values, depth, steps).solutions && Matches(t, c)
    decreases |Uncoloured(s)|, 0, |values|, 0
  {
    var v := values[|values| - 1];
    BranchSolutionsStep(s, best, values, depth, steps);
    var prev := Branch(s, best, values[..|values| - 1], depth, steps);
    ChildComplete(s, best, v, depth + 1, prev.steps, c);
    var t :| t in Search(Child(s, best, v), depth + 1, prev.steps).solutions && Matches(t, c);
    assert t in prev.solutions + Search(Child(s, best, v), depth + 1, prev.steps).solutions;
  }

  function CountKind<T, V>(ns: seq<Notice<T, V>>, k: EventKind): nat
  {
    if ns == [] then 0 else (if ns[0].kind == k then 1 else 0) + CountKind(ns[1..], k)
  }

  lemma {:induction false} CountKindAppend<T, V>(a: seq<Notice<T, V>>, b: seq<Notice<T, V>>, k: EventKind)
    ensures CountKind(a + b, k) == CountKind(a, k) + CountKind(b, k)
    decreases |a|
  {
    if a != [] {
      assert (a + b)[0] == a[0];
      assert (a + b)[1..] == a[1..] + b;
      CountKindAppend(a[1..], b, k);
    } else {
      assert a + b == b;
    }
  }

  /**
   * The counter and the event trace agree: steps grows by one for every
   * frame that branched (every "invoked" not answered by "found solution"
   * or "no solution"), and there is one "found solution" per solution.
   */
  lemma {:induction false} SearchCounts<T, V>(s: GraphState<T, V>, depth: int, steps: int)
    requires s.topology.WellFormed()
    ensures var o := Search(s, depth, steps);
      && o.steps - steps == CountKind(o.notices, Invoked) - CountKind(o.notices, FoundSolution) - CountKind(o.notices, NoSolution)
      && |o.solutions| == CountKind(o.notices, FoundSolution)
      && o.notices[0] == Notice(Invoked, s, depth, steps, None, None)
    decreases |Uncoloured(s)|, 1, 0
  {
    var invoked := Notice(Invoked, s, depth, steps, None, None);
    var o := Search(s, depth, steps);
    if s.IsComplete() {
      assert o.notices == [invoked] + [Notice(FoundSolution, s, depth, steps, None, None)];
      CountKindAppend([invoked], [Notice(FoundSolution, s, depth, steps, None, None)], Invoked);
      CountKindAppend([invoked], [Notice(FoundSolution, s, depth, steps, None, None)], FoundSolution);
      CountKindAppend([invoked], [Notice(FoundSolution, s, depth, steps, None, None)], NoSolution);
    } else {
      var squares := UnvaluedNodesSorted(s);
      if squares == [] {
        assert o.notices == [invoked] + [Notice(NoSolution, s, depth, steps, None, None)];
        CountKindAppend([invoked], [Notice(NoSolution, s, depth, steps, None, None)], Invoked);
        CountKindAppend([invoked], [Notice(NoSolution, s, depth, steps, None, None)], FoundSolution);
        CountKindAppend([invoked], [Notice(NoSolution, s, depth, steps, None, None)], NoSolution);
      } else {
        UnvaluedNodesSortedSpec(s);
        assert squares[0] in squares;
        var b := Branch(s, squares[0].node, squares[0].colours, depth, steps);
        BranchCounts(s, squares[0].node, squares[0].colours, depth, steps);
        CountKindAppend([invoked], b.notices, Invoked);
        CountKindAppend([invoked], b.notices, FoundSolution);
        CountKindAppend([invoked], b.notices, NoSolution);
      }
    }
  }

  lemma CountKindOfThree<T, V>(a: seq<Notice<T, V>>, b: seq<Notice<T, V>>, c: seq<Notice<T, V>>, k: EventKind)
    ensures CountKind(a + b + c, k) == CountKind(a, k) + CountKind(b, k) + CountKind(c, k)
  {
    CountKindAppend(a, b, k);
    CountKindAppend(a + b, c, k);
  }

  lemma {:induction false} BranchCounts<T, V>(s: GraphState<T, V>, best: T, values: seq<V>, depth: int, steps: int)
    requires s.topology.WellFormed() && best in s.topology.allNodes && s.Colour(best).None?
    requires PossibleColours(s, best).Ok? && forall v :: v in values ==> v in Candidates(s, best)
    ensures var o := Branch(s, best, values, depth, steps);
      && o.steps - steps == CountKind(o.notices, Invoked) - CountKind(o.notices, FoundSolution) - CountKind(o.notices, NoSolution)
      && |o.solutions| == CountKind(o.notices, FoundSolution)
    decreases |Uncoloured(s)|, 0, |values|
  {
    if values != [] {
      var init := values[..|values| - 1];
      var v := values[|values| - 1];
      var prev := Branch(s, best, init, depth, steps);
      var next := Child(s, best, v);
      ChildUncoloured(s, best, v);
      var tried := Notice(TriedCell, next, depth, prev.steps, Some(best), Some(v));
      var sub := Search(next, depth + 1, prev.steps);
      assert Branch(s, best, values, depth, steps)
          == Outcome(prev.solutions + sub.solutions, prev.notices + [tried] + sub.notices, sub.steps);
      BranchCounts(s, best, init, depth, steps);
      SearchCounts(next, depth + 1, prev.steps);
      CountKindOfThree(prev.notices, [tried], sub.notices, Invoked);
      CountKindOfThree(prev.notices, [tried], sub.notices, FoundSolution);
      CountKindOfThree(prev.notices, [tried], sub.notices, NoSolution);
    }
  }

  /** Every event in `ns` reports a depth in [lo, hi]. */
  ghost predicate DepthsWithin<T, V>(ns: seq<Notice<T, V>>, lo: int, hi: int)
  {
    forall n :: n in ns ==> lo <= n.depth <= hi
  }

  /**
   * The recursion is never deeper than the number of uncoloured nodes:
   * each level colours one more node, so a frame at depth d only fires
   * events at depths d to d + |Uncoloured(s)|.
   */
  lemma {:induction false} SearchDepths<T, V>(s: GraphState<T, V>, depth: int, steps: int)
    requires s.topology.WellFormed()
    ensures DepthsWithin(Search(s, depth, steps).notices, depth, depth + |Uncoloured(s)|)
    decreases |Uncoloured(s)|, 1, 0
  {
    if !s.IsComplete() {
      var squares := UnvaluedNodesSorted(s);
      if squares != [] {
        SearchBranches(s, depth, steps);
        BranchDepths(s, squares[0].node, squares[0].colours, depth, steps);
      }
    }
  }

  lemma {:induction false} BranchDepths<T, V>(s: GraphState<T, V>, best: T, values: seq<V>, depth: int, steps: int)
    requires s.topology.WellFormed() && best in s.topology.allNodes && s.Colour(best).None?
    requires PossibleColours(s, best).Ok? && forall v :: v in values ==> v in Candidates(s, best)
    ensures DepthsWithin(Branch(s, best, values, depth, steps).notices, depth, depth + |Uncoloured(s)|)
    decreases |Uncoloured(s)|, 0, |values|
  {
    if values != [] {
      var init := values[..|values| - 1];
      var v := values[|values| - 1];
      var prev := Branch(s, best, init, depth, steps);
      var next := Child(s, best, v);
      ChildUncoloured(s, best, v);
      var tried := Notice(TriedCell, next, depth, prev.steps, Some(best), Some(v));
      var sub := Search(next, depth + 1, prev.steps);
      assert Branch(s, best, values, depth, steps).notices == prev.notices + [tried] + sub.notices;
      BranchDepths(s, best, init, depth, steps);
      SearchDepths(next, depth + 1, prev.steps);
    }
  }

  /** From the top-level call, the depth never exceeds the node count. */
  lemma SearchDepthBound<T, V>(s: GraphState<T, V>, steps: int)
    requires s.topology.WellFormed()
    ensures DepthsWithin(Search(s, 0, steps).notices, 0, s.topology.nodeCount)
  {
    SearchDepths(s, 0, steps);
    UncolouredWithinNodes(s);
  }

  lemma UncolouredWithinNodes<T, V>(s: GraphState<T, V>)
    requires s.topology.WellFormed()
    ensures |Uncoloured(s)| <= s.topology.nodeCount
  {
    assert Uncoloured(s) <= s.topology.neighbours.Keys;
    SubsetOfSameSize(Uncoloured(s), s.topology.neighbours.Keys);
  }
}
