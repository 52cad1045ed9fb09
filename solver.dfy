/**
 * The backtracking solver (src/gtf/puzzle/engine/Solver.java) and its
 * listener registry (src/gtf/puzzle/engine/SolverEventHub.java). A
 * listener's callbacks are foreign code: each call is recorded in the
 * hub's trace instead of being run.
 */
module Solvers {
  import opened Wrappers
  import opened Topologies
  import opened ColourConstraints
  import opened ColourableGraphs
  import opened Backtracking
  import opened SolverSearch

  /** SolverEvent: the solver that fired it, the puzzle, depth, steps, and for a tried cell the node and value. */
  datatype SolverEvent<T, V, L> = SolverEvent(source: Solver<T, V, L>, puzzle: GraphState<T, V>, recursionDepth: int,
                                              steps: int, node: Option<T>, value: Option<V>)

  /** One callback: which listener, which of its four methods, with which event. */
  datatype Delivery<T, V, L> = Delivery(listener: L, kind: EventKind, event: SolverEvent<T, V, L>)

  /** A notice sent to every listener of the list, in list order. */
  function Deliveries<T, V, L>(listeners: seq<L>, source: Solver<T, V, L>, n: Notice<T, V>): (r: seq<Delivery<T, V, L>>)
    ensures |r| == |listeners|
    ensures forall i :: 0 <= i < |r| ==>
      r[i] == Delivery(listeners[i], n.kind, SolverEvent(source, n.puzzle, n.depth, n.steps, n.node, n.value))
  {
    seq(|listeners|, i requires 0 <= i < |listeners| =>
      Delivery(listeners[i], n.kind, SolverEvent(source, n.puzzle, n.depth, n.steps, n.node, n.value)))
  }

  /** A series of notices, each sent to every listener. */
  function Broadcast<T, V, L>(listeners: seq<L>, source: Solver<T, V, L>, ns: seq<Notice<T, V>>): seq<Delivery<T, V, L>>
    decreases |ns|
  {
    if ns == [] then []
    else Broadcast(listeners, source, ns[..|ns| - 1]) + Deliveries(listeners, source, ns[|ns| - 1])
  }

  /** One fire call: its notice and the callbacks it made, in order. */
  datatype Fired<T, V, L> = Fired(notice: Notice<T, V>, calls: seq<Delivery<T, V, L>>)

  /** A series of notices fired while the listener list stays the same. */
  function Tag<T, V, L>(listeners: seq<L>, source: Solver<T, V, L>, ns: seq<Notice<T, V>>): (r: seq<Fired<T, V, L>>)
    ensures |r| == |ns|
    ensures forall i :: 0 <= i < |ns| ==> r[i] == Fired(ns[i], Deliveries(listeners, source, ns[i]))
  {
    seq(|ns|, i requires 0 <= i < |ns| => Fired(ns[i], Deliveries(listeners, source, ns[i])))
  }

  /** The fire calls of one more value of the branching loop. */
  lemma TagStep<T, V, L>(log: seq<Fired<T, V, L>>, listeners: seq<L>, source: Solver<T, V, L>,
                         prev: seq<Notice<T, V>>, tried: Notice<T, V>, sub: seq<Notice<T, V>>)
    ensures log + Tag(listeners, source, prev) + [Fired(tried, Deliveries(listeners, source, tried))] + Tag(listeners, source, sub)
         == log + Tag(listeners, source, prev + [tried] + sub)
  {
    var a, b := Tag(listeners, source, prev), Tag(listeners, source, sub);
    var f := Fired(tried, Deliveries(listeners, source, tried));
    assert Tag(listeners, source, prev + [tried] + sub) == a + [f] + b;
    assert log + a + [f] + b == log + (a + [f] + b);
  }

  /** A notice fired ahead of a series of others. */
  lemma TagFront<T, V, L>(log: seq<Fired<T, V, L>>, listeners: seq<L>, source: Solver<T, V, L>,
                          first: Notice<T, V>, rest: seq<Notice<T, V>>)
    ensures log + [Fired(first, Deliveries(listeners, source, first))] + Tag(listeners, source, rest)
         == log + Tag(listeners, source, [first] + rest)
  {
    var f := Fired(first, Deliveries(listeners, source, first));
    assert Tag(listeners, source, [first] + rest) == [f] + Tag(listeners, source, rest);
    assert log + [f] + Tag(listeners, source, rest) == log + ([f] + Tag(listeners, source, rest));
  }

  /** The callbacks of a series of fire calls, one call after the other. */
  function Calls<T, V, L>(log: seq<Fired<T, V, L>>): seq<Delivery<T, V, L>>
    decreases |log|
  {
    if log == [] then [] else Calls(log[..|log| - 1]) + log[|log| - 1].calls
  }

  lemma {:induction false} CallsAppend<T, V, L>(a: seq<Fired<T, V, L>>, b: seq<Fired<T, V, L>>)
    ensures Calls(a + b) == Calls(a) + Calls(b)
    decreases |b|
  {
    if b == [] {
      assert a + b == a;
    } else {
      var init := b[..|b| - 1];
      CallsAppend(a, init);
      assert (a + b)[..|a + b| - 1] == a + init;
    }
  }

  /**
   * Notices fired while the listener list stays the same reach every
   * listener, notice after notice, in list order.
   */
  lemma {:induction false} CallsOfTag<T, V, L>(listeners: seq<L>, source: Solver<T, V, L>, ns: seq<Notice<T, V>>)
    ensures Calls(Tag(listeners, source, ns)) == Broadcast(listeners, source, ns)
    decreases |ns|
  {
    if ns != [] {
      var init := ns[..|ns| - 1];
      CallsOfTag(listeners, source, init);
      var t := Tag(listeners, source, ns);
      assert t[..|t| - 1] == Tag(listeners, source, init);
    }
  }

  /** The position of the first occurrence of `x`, or the length when there is none. */
  function IndexOf<L(==)>(xs: seq<L>, x: L): (i: nat)
    ensures i <= |xs| && x !in xs[..i]
    ensures i < |xs| ==> xs[i] == x
    ensures i == |xs| ==> x !in xs
  {
    if xs == [] then 0
    else if xs[0] == x then 0
    else
      var j := IndexOf(xs[1..], x);
      assert xs[..j + 1] == [xs[0]] + xs[1..][..j];
      assert j == |xs[1..]| ==> xs == [xs[0]] + xs[1..];
      j + 1
  }

  /** ArrayList.remove(Object): the first occurrence goes, if there is one. */
  function RemoveFirst<L(==)>(xs: seq<L>, x: L): seq<L>
  {
    var i := IndexOf(xs, x);
    if i < |xs| then xs[..i] + xs[i + 1..] else xs
  }

  /**
   * Removing takes away exactly one occurrence when there is one, and
   * otherwise nothing; the others keep their order.
   */
  lemma RemoveFirstMultiset<L>(xs: seq<L>, x: L)
    ensures multiset(RemoveFirst(xs, x)) == multiset(xs) - multiset{x}
    ensures x in xs ==> |RemoveFirst(xs, x)| == |xs| - 1
  {
    var i := IndexOf(xs, x);
    if i < |xs| {
      assert xs == xs[..i] + [x] + xs[i + 1..];
    } else {
      assert multiset(xs)[x] == 0;
    }
  }

  class SolverEventHub<T(==), V(==), L(==)> {
    const eventSource: Solver<T, V, L>
    var listeners: seq<L>
    /** Every fire call so far, with the callbacks it made. */
    var log: seq<Fired<T, V, L>>

    constructor (solver: Solver<T, V, L>)
      ensures eventSource == solver && listeners == [] && log == []
    {
      eventSource := solver;
      listeners := [];
      log := [];
    }

    /** addListener: appended, duplicates allowed. */
    method AddListener(listener: L)
      modifies this`listeners
      ensures listeners == old(listeners) + [listener]
    {
      listeners := listeners + [listener];
    }

    /** removeListener: scan for the first equal listener and remove it. */
    method RemoveListener(listener: L)
      modifies this`listeners
      ensures listeners == RemoveFirst(old(listeners), listener)
    {
      var i := 0;
      while i < |listeners| && listeners[i] != listener
        invariant 0 <= i <= IndexOf(listeners, listener)
      {
        i := i + 1;
      }
      if i < |listeners| {
        listeners := listeners[..i] + listeners[i + 1..];
      }
    }

    /** The loop shared by the four fire methods: one callback per listener, in list order. */
    method Dispatch(n: Notice<T, V>)
      modifies this`log
      ensures log == old(log) + [Fired(n, Deliveries(listeners, eventSource, n))]
    {
      var calls := [];
      for i := 0 to |listeners|
        invariant calls == Deliveries(listeners[..i], eventSource, n)
      {
        calls := calls + [Delivery(listeners[i], n.kind,
                                   SolverEvent(eventSource, n.puzzle, n.depth, n.steps, n.node, n.value))];
      }
      assert listeners[..|listeners|] == listeners;
      log := log + [Fired(n, calls)];
    }

    method FireInvoked(puzzle: ColourableGraph<T, V>, recursionDepth: int, steps: int)
      modifies this`log
      ensures var n := Notice(Invoked, puzzle.State(), recursionDepth, steps, None, None);
        log == old(log) + [Fired(n, Deliveries(listeners, eventSource, n))]
    {
      Dispatch(Notice(Invoked, puzzle.State(), recursionDepth, steps, None, None));
    }

    method FireFoundSolution(puzzle: ColourableGraph<T, V>, recursionDepth: int, steps: int)
      modifies this`log
      ensures var n := Notice(FoundSolution, puzzle.State(), recursionDepth, steps, None, None);
        log == old(log) + [Fired(n, Deliveries(listeners, eventSource, n))]
    {
      Dispatch(Notice(FoundSolution, puzzle.State(), recursionDepth, steps, None, None));
    }

    method FireNoSolution(puzzle: ColourableGraph<T, V>, recursionDepth: int, steps: int)
      modifies this`log
      ensures var n := Notice(NoSolution, puzzle.State(), recursionDepth, steps, None, None);
        log == old(log) + [Fired(n, Deliveries(listeners, eventSource, n))]
    {
      Dispatch(Notice(NoSolution, puzzle.State(), recursionDepth, steps, None, None));
    }

    method FireTriedCell(puzzle: ColourableGraph<T, V>, recursionDepth: int, steps: int, node: T, value: V)
      modifies this`log
      ensures var n := Notice(TriedCell, puzzle.State(), recursionDepth, steps, Some(node), Some(value));
        log == old(log) + [Fired(n, Deliveries(listeners, eventSource, n))]
    {
      Dispatch(Notice(TriedCell, puzzle.State(), recursionDepth, steps, Some(node), Some(value)));
    }
  }

  /** The states of a sequence of graphs, position by position. */
  ghost predicate Hold<T, V>(gs: seq<ColourableGraph<T, V>>, states: seq<GraphState<T, V>>)
    reads set g | g in gs
  {
    |gs| == |states| && forall k :: 0 <= k < |gs| ==> gs[k].State() == states[k]
  }

  lemma HoldConcat<T, V>(a: seq<ColourableGraph<T, V>>, sa: seq<GraphState<T, V>>,
                         b: seq<ColourableGraph<T, V>>, sb: seq<GraphState<T, V>>)
    requires Hold(a, sa) && Hold(b, sb)
    ensures Hold(a + b, sa + sb)
  {
    forall k | 0 <= k < |a + b|
      ensures (a + b)[k].State() == (sa + sb)[k]
    {
      if k < |a| {
        assert (a + b)[k] == a[k] && (sa + sb)[k] == sa[k];
      } else {
        assert (a + b)[k] == b[k - |a|] && (sa + sb)[k] == sb[k - |a|];
      }
    }
  }

  class Solver<T(==), V(==), L(==)> {
    var steps: int
    var eventHub: SolverEventHub?<T, V, L>

    ghost predicate Valid()
      reads this, eventHub
    {
      eventHub != null && eventHub.eventSource == this
    }

    constructor ()
      ensures Valid() && steps == 0
      ensures fresh(eventHub) && eventHub.listeners == [] && eventHub.log == []
    {
      steps := 0;
      eventHub := null;
      new;
      eventHub := new SolverEventHub(this);
    }

    method AddListener(listener: L)
      requires Valid()
      modifies eventHub`listeners
      ensures eventHub.listeners == old(eventHub.listeners) + [listener]
    {
      eventHub.AddListener(listener);
    }

    method RemoveListener(listener: L)
      requires Valid()
      modifies eventHub`listeners
      ensures eventHub.listeners == RemoveFirst(old(eventHub.listeners), listener)
    {
      eventHub.RemoveListener(listener);
    }

    /** getSteps */
    function GetSteps(): int
      reads this
    {
      steps
    }

    /**
     * solve(puzzle): the search from depth 0. The solutions, the counter
     * and the listener callbacks are those of the search specification;
     * the puzzle keeps its colours; every solution is the puzzle itself
     * or a new graph.
     */
    method Solve(puzzle: ColourableGraph<T, V>) returns (result: seq<ColourableGraph<T, V>>)
      requires Valid() && puzzle.Valid() && puzzle.topology.WellFormed()
      modifies this`steps, eventHub`log, puzzle`possibleColoursCache, puzzle`neighbourColoursCache
      ensures Valid()
      ensures var o := Search(old(puzzle.State()), 0, old(steps));
        && Hold(result, o.solutions)
        && steps == o.steps
        && eventHub.log == old(eventHub.log) + Tag(eventHub.listeners, this, o.notices)
        && Calls(eventHub.log) == Calls(old(eventHub.log)) + Broadcast(eventHub.listeners, this, o.notices)
      ensures puzzle.Valid() && puzzle.colours == old(puzzle.colours)
      ensures forall g :: g in result ==> g == puzzle || fresh(g)
    {
      result := SolveAt(puzzle, 0);
      ghost var ns := Search(old(puzzle.State()), 0, old(steps)).notices;
      CallsAppend(old(eventHub.log), Tag(eventHub.listeners, this, ns));
      CallsOfTag(eventHub.listeners, this, ns);
    }

    /** solve(puzzle, recursionDepth), with the fire calls stated as notices. */
    method SolveAt(puzzle: ColourableGraph<T, V>, recursionDepth: int) returns (result: seq<ColourableGraph<T, V>>)
      requires Valid() && puzzle.Valid() && puzzle.topology.WellFormed()
      modifies this`steps, eventHub`log, puzzle`possibleColoursCache, puzzle`neighbourColoursCache
      ensures Valid()
      ensures var o := Search(old(puzzle.State()), recursionDepth, old(steps));
        && Hold(result, o.solutions)
        && steps == o.steps
        && eventHub.log == old(eventHub.log) + Tag(eventHub.listeners, this, o.notices)
      ensures puzzle.Valid() && puzzle.colours == old(puzzle.colours)
      ensures forall g :: g in result ==> g == puzzle || fresh(g)
      decreases |Uncoloured(puzzle.State())|, 5
    {
      ghost var s := puzzle.State();
      ghost var log0 := eventHub.log;
      ghost var invoked := Notice(Invoked, s, recursionDepth, steps, None, None);
      eventHub.FireInvoked(puzzle, recursionDepth, steps);
      if puzzle.IsComplete() {
        ghost var found := Notice(FoundSolution, s, recursionDepth, steps, None, None);
        eventHub.FireFoundSolution(puzzle, recursionDepth, steps);
        result := [puzzle];
        TagFront(log0, eventHub.listeners, this, invoked, [found]);
        return;
      }
      result := Descend(puzzle, s, recursionDepth, log0, steps);
    }

    /**
     * The rest of a frame that found the puzzle incomplete: order the
     * uncoloured nodes, and either report a dead end or branch on the best
     * square. Puts one step on the counter when it branches.
     */
    method Descend(puzzle: ColourableGraph<T, V>, ghost s: GraphState<T, V>, recursionDepth: int,
                   ghost log0: seq<Fired<T, V, L>>, ghost steps0: int)
      returns (result: seq<ColourableGraph<T, V>>)
      requires Valid() && puzzle.Valid() && puzzle.State() == s && s.topology.WellFormed() && !s.IsComplete()
      requires steps == steps0
      requires var invoked := Notice(Invoked, s, recursionDepth, steps0, None, None);
        eventHub.log == log0 + [Fired(invoked, Deliveries(eventHub.listeners, this, invoked))]
      modifies this`steps, eventHub`log, puzzle`possibleColoursCache, puzzle`neighbourColoursCache
      ensures Valid()
      ensures var o := Search(s, recursionDepth, steps0);
        && Hold(result, o.solutions)
        && steps == o.steps
        && eventHub.log == log0 + Tag(eventHub.listeners, this, o.notices)
      ensures puzzle.Valid() && puzzle.colours == old(puzzle.colours)
      ensures forall g :: g in result ==> fresh(g)
      decreases |Uncoloured(s)|, 4
    {
      var backtrackable := new Backtrackable(puzzle);
      var squares := backtrackable.GetUnvaluedNodesSorted();
      if squares == [] {
        SearchDeadEnd(s, recursionDepth, steps0);
        result := DeadEnd(puzzle, s, recursionDepth, log0, steps0);
      } else {
        SearchBranches(s, recursionDepth, steps0);
        result := BranchOn(puzzle, s, squares[0].node, squares[0].colours, recursionDepth, log0, steps0);
      }
    }

    /** No square is left to try: fire "no solution". */
    method DeadEnd(puzzle: ColourableGraph<T, V>, ghost s: GraphState<T, V>, recursionDepth: int,
                   ghost log0: seq<Fired<T, V, L>>, ghost steps0: int)
      returns (result: seq<ColourableGraph<T, V>>)
      requires Valid() && puzzle.State() == s && steps == steps0
      requires var invoked := Notice(Invoked, s, recursionDepth, steps0, None, None);
        eventHub.log == log0 + [Fired(invoked, Deliveries(eventHub.listeners, this, invoked))]
      modifies eventHub`log
      ensures Valid() && result == []
      ensures eventHub.log == log0 + Tag(eventHub.listeners, this, [Notice(Invoked, s, recursionDepth, steps0, None, None),
                                                                   Notice(NoSolution, s, recursionDepth, steps0, None, None)])
    {
      eventHub.FireNoSolution(puzzle, recursionDepth, steps);
      result := [];
      TagFront(log0, eventHub.listeners, this, Notice(Invoked, s, recursionDepth, steps0, None, None),
               [Notice(NoSolution, s, recursionDepth, steps0, None, None)]);
    }

    /** Branch on the best square, then put one step on the counter. */
    method BranchOn(puzzle: ColourableGraph<T, V>, ghost s: GraphState<T, V>, bestSquare: T, allowedValues: seq<V>, recursionDepth: int,
                    ghost log0: seq<Fired<T, V, L>>, ghost steps0: int)
      returns (result: seq<ColourableGraph<T, V>>)
      requires Valid() && puzzle.Valid() && puzzle.State() == s && s.topology.WellFormed()
      requires bestSquare in s.topology.allNodes && s.Colour(bestSquare).None?
      requires PossibleColours(s, bestSquare).Ok?
      requires forall v :: v in allowedValues ==> v in Candidates(s, bestSquare)
      requires steps == steps0
      requires var invoked := Notice(Invoked, s, recursionDepth, steps0, None, None);
        eventHub.log == log0 + [Fired(invoked, Deliveries(eventHub.listeners, this, invoked))]
      modifies this`steps, eventHub`log
      ensures Valid()
      ensures var o := Branch(s, bestSquare, allowedValues, recursionDepth, steps0);
        && Hold(result, o.solutions)
        && steps == o.steps + 1
        && eventHub.log == log0 + Tag(eventHub.listeners, this, [Notice(Invoked, s, recursionDepth, steps0, None, None)] + o.notices)
      ensures forall g :: g in result ==> fresh(g)
      decreases |Uncoloured(s)|, 3
    {
      result := TryValues(puzzle, s, bestSquare, allowedValues, recursionDepth);
      steps := steps + 1;
      TagFront(log0, eventHub.listeners, this, Notice(Invoked, s, recursionDepth, steps0, None, None),
               Branch(s, bestSquare, allowedValues, recursionDepth, steps0).notices);
    }

    /**
     * The loop over the allowed values of the best square; the puzzle
     * itself is only read.
     */
    method TryValues(puzzle: ColourableGraph<T, V>, ghost s: GraphState<T, V>, bestSquare: T, allowedValues: seq<V>, recursionDepth: int)
      returns (result: seq<ColourableGraph<T, V>>)
      requires Valid() && puzzle.Valid() && puzzle.State() == s && s.topology.WellFormed()
      requires bestSquare in s.topology.allNodes && s.Colour(bestSquare).None?
      requires PossibleColours(s, bestSquare).Ok?
      requires forall v :: v in allowedValues ==> v in Candidates(s, bestSquare)
      modifies this`steps, eventHub`log
      ensures Valid()
      ensures var o := Branch(s, bestSquare, allowedValues, recursionDepth, old(steps));
        && Hold(result, o.solutions)
        && steps == o.steps
        && eventHub.log == old(eventHub.log) + Tag(eventHub.listeners, this, o.notices)
      ensures forall g :: g in result ==> fresh(g)
      decreases |Uncoloured(s)|, 2
    {
      ghost var log0 := eventHub.log;
      ghost var steps0 := steps;
      ghost var o := Outcome([], [], steps);
      result := [];
      for i := 0 to |allowedValues|
        invariant Valid()
        invariant forall g :: g in result ==> fresh(g)
        invariant o == Branch(s, bestSquare, allowedValues[..i], recursionDepth, steps0)
        invariant Hold(result, o.solutions) && steps == o.steps
        invariant eventHub.log == log0 + Tag(eventHub.listeners, this, o.notices)
      {
        result, o := NextValue(puzzle, s, bestSquare, allowedValues, i, recursionDepth, result, log0, steps0, o);
      }
      assert allowedValues[..|allowedValues|] == allowedValues;
    }

    /**
     * One iteration of the loop over the allowed values: the solutions of
     * the tried value join those found so far.
     */
    method NextValue(puzzle: ColourableGraph<T, V>, ghost s: GraphState<T, V>, bestSquare: T, allowedValues: seq<V>, i: nat,
                     recursionDepth: int, result0: seq<ColourableGraph<T, V>>,
                     ghost log0: seq<Fired<T, V, L>>, ghost steps0: int, ghost o0: Outcome<T, V>)
      returns (result: seq<ColourableGraph<T, V>>, ghost o: Outcome<T, V>)
      requires Valid() && puzzle.Valid() && puzzle.State() == s && s.topology.WellFormed()
      requires bestSquare in s.topology.allNodes && s.Colour(bestSquare).None?
      requires PossibleColours(s, bestSquare).Ok?
      requires forall v :: v in allowedValues ==> v in Candidates(s, bestSquare)
      requires i < |allowedValues|
      requires o0 == Branch(s, bestSquare, allowedValues[..i], recursionDepth, steps0)
      requires Hold(result0, o0.solutions) && steps == o0.steps
      requires eventHub.log == log0 + Tag(eventHub.listeners, this, o0.notices)
      modifies this`steps, eventHub`log
      ensures Valid()
      ensures forall g :: g in result ==> g in result0 || fresh(g)
      ensures o == Branch(s, bestSquare, allowedValues[..i + 1], recursionDepth, steps0)
      ensures Hold(result, o.solutions) && steps == o.steps
      ensures eventHub.log == log0 + Tag(eventHub.listeners, this, o.notices)
      decreases |Uncoloured(s)|, 1
    {
      BranchStep(s, bestSquare, allowedValues, i, recursionDepth, steps0);
      ghost var tried := Notice(TriedCell, Child(s, bestSquare, allowedValues[i]), recursionDepth, steps, Some(bestSquare), Some(allowedValues[i]));
      label before:
      var nextResult, sub := TryValue(puzzle, s, bestSquare, allowedValues[i], recursionDepth);
      assert Hold(result0, o0.solutions) by {
        assert forall k :: 0 <= k < |result0| ==> result0[k].State() == old@before(result0[k].State());
      }
      result := result0 + nextResult;
      TagStep(log0, eventHub.listeners, this, o0.notices, tried, sub.notices);
      o := Outcome(o0.solutions + sub.solutions, o0.notices + [tried] + sub.notices, sub.steps);
      HoldConcat(result0, o0.solutions, nextResult, sub.solutions);
    }

    /** A copy of the puzzle with the value set on the best square. */
    static method CopyWith(puzzle: ColourableGraph<T, V>, ghost s: GraphState<T, V>, bestSquare: T, value: V)
      returns (next: ColourableGraph<T, V>)
      requires puzzle.Valid() && puzzle.State() == s && s.topology.WellFormed()
      requires bestSquare in s.topology.allNodes
      requires PossibleColours(s, bestSquare).Ok? && value in Candidates(s, bestSquare)
      ensures fresh(next) && next.Valid() && next.topology.WellFormed()
      ensures next.State() == Child(s, bestSquare, value)
    {
      next := puzzle.CopyOf();
      CandidateAccepted(s, bestSquare, value);
      var _ := next.SetColour(bestSquare, Some(value));
    }

    /**
     * The body of that loop: copy the puzzle, set the value on the copy,
     * fire "tried cell" and recurse one level deeper on the copy. The
     * puzzle itself is only read.
     */
    method TryValue(puzzle: ColourableGraph<T, V>, ghost s: GraphState<T, V>, bestSquare: T, value: V, recursionDepth: int)
      returns (nextResult: seq<ColourableGraph<T, V>>, ghost sub: Outcome<T, V>)
      requires Valid() && puzzle.Valid() && puzzle.State() == s && s.topology.WellFormed()
      requires bestSquare in s.topology.allNodes && s.Colour(bestSquare).None?
      requires PossibleColours(s, bestSquare).Ok? && value in Candidates(s, bestSquare)
      modifies this`steps, eventHub`log
      ensures Valid()
      ensures sub == Search(Child(s, bestSquare, value), recursionDepth + 1, old(steps))
      ensures Hold(nextResult, sub.solutions) && steps == sub.steps
      ensures var tried := Notice(TriedCell, Child(s, bestSquare, value), recursionDepth, old(steps), Some(bestSquare), Some(value));
        eventHub.log == old(eventHub.log) + [Fired(tried, Deliveries(eventHub.listeners, this, tried))]
                        + Tag(eventHub.listeners, this, sub.notices)
      ensures forall g :: g in nextResult ==> fresh(g)
      decreases |Uncoloured(s)|, 0
    {
      var next := CopyWith(puzzle, s, bestSquare, value);
      ChildUncoloured(s, bestSquare, value);
      eventHub.FireTriedCell(next, recursionDepth, steps, bestSquare, value);
      sub := Search(next.State(), recursionDepth + 1, steps);
      nextResult := SolveAt(next, recursionDepth + 1);
    }
  }
}
