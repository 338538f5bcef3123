/**
 * The reduce-side task runner: from the grouping boundary of a step it builds one chain of
 * stage elements (group, the aggregation block, the Each elements, the sink), opens it once,
 * feeds it each key with its grouped values, and closes it.
 */
module ReducerStack {
  import opened Wrappers
  import opened Tuples
  import opened StepGraph

  /**
   * A reduce-side stage element. Elements that wrap a pipe of the step carry its position in the
   * walk that follows the group; the sink carries the position of its tap.
   */
  datatype ReducerElement =
    | GroupElement
    | AllAggregatorElement
    | AggregatorElement(node: nat)
    | BufferElement(node: nat)
    | EachElement(node: nat)
    | SinkElement(node: nat)

  /** The element ending the Each run is not a tap, so the cast to Tap fails. */
  datatype BuildError = ClassCast(node: nat)

  datatype ConstructionError = IllegalState | BuildFailed(error: BuildError)

  /**
   * A built chain, head first, and the handler list the all-aggregator element shares with
   * the aggregator elements.
   */
  datatype ReducerPlan = ReducerPlan(chain: seq<ReducerElement>, handlers: seq<nat>)

  /** The aggregation block for a walk whose aggregator run ends at `a` and buffer run at `b`. */
  function AggregationBlock(a: nat, b: nat): seq<ReducerElement>
  {
    if a > 0 then [AllAggregatorElement] + seq(a, k requires 0 <= k => AggregatorElement(k))
    else seq(b, k requires 0 <= k => BufferElement(k))
  }

  /** The chain buildStack builds for the walk `path` that follows the group. */
  function ReducerChain(path: seq<NodeKind>): (r: Result<ReducerPlan, BuildError>)
    requires EndsAtBoundary(path)
    ensures r.Failure? ==> r.error.node < |path| && !path[r.error.node].Tap?
    ensures r.Success? ==> |r.value.handlers| + 2 <= |r.value.chain|
    ensures r.Success? ==> r.value.chain[0] == GroupElement && r.value.chain[|r.value.chain| - 1].SinkElement?
  {
    var a := RunEnd(path, 0, IsAggregatorEvery);
    var b := if a > 0 then a else RunEnd(path, 0, IsBufferEvery);
    var e := RunEnd(path, b, IsEach);
    if !path[e].Tap? then Failure(ClassCast(e))
    else
      Success(ReducerPlan(
                [GroupElement] + AggregationBlock(a, b)
                + seq(e - b, k requires 0 <= k => EachElement(b + k))
                + [SinkElement(e)],
                seq(a, k requires 0 <= k => k)))
  }

  /** The pipe positions the elements of a chain stand for, head first. */
  function Covered(chain: seq<ReducerElement>): seq<nat>
  {
    if chain == [] then []
    else
      (match chain[0]
       case AggregatorElement(n) => [n]
       case BufferElement(n) => [n]
       case EachElement(n) => [n]
       case SinkElement(n) => [n]
       case _ => [])
      + Covered(chain[1..])
  }

  /** An element stands for a pipe of its own kind. */
  predicate Matches(path: seq<NodeKind>, x: ReducerElement)
  {
    match x
    case AggregatorElement(n) => n < |path| && IsAggregatorEvery(path[n])
    case BufferElement(n) => n < |path| && IsBufferEvery(path[n])
    case EachElement(n) => n < |path| && IsEach(path[n])
    case SinkElement(n) => n < |path| && path[n].Tap?
    case _ => true
  }

  lemma {:induction false} CoveredAppend(c: seq<ReducerElement>, d: seq<ReducerElement>)
    ensures Covered(c + d) == Covered(c) + Covered(d)
    decreases |c|
  {
    if c == [] {
      assert c + d == d;
    } else {
      assert (c + d)[1..] == c[1..] + d;
      CoveredAppend(c[1..], d);
    }
  }

  lemma {:induction false} CoveredRun(s: seq<ReducerElement>, from: nat)
    requires forall k :: 0 <= k < |s| ==> !s[k].GroupElement? && !s[k].AllAggregatorElement?
    requires forall k :: 0 <= k < |s| ==> NodeOf(s[k]) == from + k
    ensures Covered(s) == seq(|s|, k requires 0 <= k => from + k)
    decreases |s|
  {
    if s != [] {
      CoveredRun(s[1..], from + 1);
      assert Covered(s) == [from] + Covered(s[1..]) by {
        assert NodeOf(s[0]) == from;
      }
      assert seq(|s|, k requires 0 <= k => from + k)
          == [from] + seq(|s| - 1, k requires 0 <= k => from + 1 + k);
    }
  }

  /** The positions 0 .. a-1 followed by a .. a+n-1 are the positions 0 .. a+n-1. */
  lemma PositionsConcat(a: nat, n: nat)
    ensures seq(a, k requires 0 <= k => k) + seq(n, k requires 0 <= k => a + k)
         == seq(a + n, k requires 0 <= k => k)
  {
  }

  function NodeOf(x: ReducerElement): nat
  {
    match x
    case AggregatorElement(n) => n
    case BufferElement(n) => n
    case EachElement(n) => n
    case SinkElement(n) => n
    case _ => 0
  }

  /**
   * A built chain starts with the one group element, ends with the one sink element, and
   * has neither anywhere else.
   */
  lemma ReducerChainShape(path: seq<NodeKind>)
    requires EndsAtBoundary(path)
    requires ReducerChain(path).Success?
    ensures var c := ReducerChain(path).value.chain;
            && |c| >= 2 && c[0] == GroupElement && c[|c| - 1].SinkElement?
            && forall k :: 0 < k < |c| - 1 ==> !c[k].GroupElement? && !c[k].SinkElement?
  {
  }

  /** Aggregator elements and buffer elements never appear in the same chain. */
  lemma ReducerChainNeverMixes(path: seq<NodeKind>)
    requires EndsAtBoundary(path)
    requires ReducerChain(path).Success?
    ensures var c := ReducerChain(path).value.chain;
            !exists i, j :: 0 <= i < |c| && 0 <= j < |c| && c[i].AggregatorElement? && c[j].BufferElement?
  {
  }

  /** The aggregation block stands for the pipes before the end of the opening Every run. */
  lemma {:induction false} CoveredAggregationBlock(a: nat, b: nat)
    requires a > 0 ==> b == a
    ensures Covered(AggregationBlock(a, b)) == seq(b, k requires 0 <= k => k)
  {
    var run := if a > 0 then seq(a, k requires 0 <= k => AggregatorElement(k))
               else seq(b, k requires 0 <= k => BufferElement(k));
    if a > 0 {
      CoveredAppend([AllAggregatorElement], run);
    }
    CoveredRun(run, 0);
  }

  /**
   * No pipe is skipped or reordered: the chain stands for the pipes 0, 1, ... of the walk in
   * order, ending at the sink's tap.
   */
  lemma ReducerChainFollowsPipeline(path: seq<NodeKind>)
    requires EndsAtBoundary(path)
    requires ReducerChain(path).Success?
    ensures var c := ReducerChain(path).value.chain;
            Covered(c) == seq(|Covered(c)|, k requires 0 <= k => k)
    ensures var c := ReducerChain(path).value.chain;
            forall i, j :: 0 <= i < j < |c| ==> Stage(c[i]) <= Stage(c[j])
  {
    var a := RunEnd(path, 0, IsAggregatorEvery);
    var b := if a > 0 then a else RunEnd(path, 0, IsBufferEvery);
    var e := RunEnd(path, b, IsEach);
    CoveredChain(a, b, e);
    StagedChain(a, b, e);
  }

  /**
   * The order of the stages of a chain: the group, the all-aggregator, the aggregators or
   * buffers, the Each elements, the sink.
   */
  function Stage(x: ReducerElement): nat
  {
    match x
    case GroupElement => 0
    case AllAggregatorElement => 1
    case AggregatorElement(_) => 2
    case BufferElement(_) => 2
    case EachElement(_) => 3
    case SinkElement(_) => 4
  }

  /** In a chain of the built shape the stages never go backwards. */
  lemma StagedChain(a: nat, b: nat, e: nat)
    requires a > 0 ==> b == a
    requires b <= e
    ensures var c := [GroupElement] + AggregationBlock(a, b)
                     + seq(e - b, k requires 0 <= k => EachElement(b + k)) + [SinkElement(e)];
            forall i, j :: 0 <= i < j < |c| ==> Stage(c[i]) <= Stage(c[j])
  {
    var block := AggregationBlock(a, b);
    var c := [GroupElement] + block + seq(e - b, k requires 0 <= k => EachElement(b + k)) + [SinkElement(e)];
    var m := |block|;
    assert |c| == m + e - b + 2;
    forall k | 0 <= k < |c|
      ensures Stage(c[k]) == if k == 0 then 0 else if a > 0 && k == 1 then 1 else if k <= m then 2
                             else if k < |c| - 1 then 3 else 4
    {
      if 1 <= k <= m {
        assert c[k] == block[k - 1];
      } else if m < k < |c| - 1 {
        assert c[k] == EachElement(b + k - m - 1);
      }
    }
  }

  /** A chain of the built shape stands for the pipes 0 .. e, in order. */
  lemma CoveredChain(a: nat, b: nat, e: nat)
    requires a > 0 ==> b == a
    requires b <= e
    ensures Covered([GroupElement] + AggregationBlock(a, b)
                    + seq(e - b, k requires 0 <= k => EachElement(b + k)) + [SinkElement(e)])
            == seq(e + 1, k requires 0 <= k => k)
  {
    var block := AggregationBlock(a, b);
    var eaches := seq(e - b, k requires 0 <= k => EachElement(b + k));
    CoveredAppend([GroupElement], block);
    CoveredAggregationBlock(a, b);
    assert Covered([GroupElement]) == [];
    assert Covered([GroupElement] + block) == seq(b, k requires 0 <= k => k);
    CoveredAppend([GroupElement] + block, eaches);
    CoveredRun(eaches, b);
    PositionsConcat(b, e - b);
    CoveredAppend([GroupElement] + block + eaches, [SinkElement(e)]);
    CoveredRun([SinkElement(e)], e);
    PositionsConcat(e, 1);
  }

  /** Each element of a built chain stands for a pipe of its own kind. */
  lemma ReducerChainMatches(path: seq<NodeKind>)
    requires EndsAtBoundary(path)
    requires ReducerChain(path).Success?
    ensures var c := ReducerChain(path).value.chain;
            forall k :: 0 <= k < |c| ==> Matches(path, c[k])
  {
  }

  /**
   * The all-aggregator element is present exactly when the walk opens with an aggregator, and
   * the shared handler list holds the aggregator elements' handlers, in pipeline order.
   */
  lemma ReducerHandlersInOrder(path: seq<NodeKind>)
    requires EndsAtBoundary(path)
    requires ReducerChain(path).Success?
    ensures var p := ReducerChain(path).value;
            && (p.chain[1] == AllAggregatorElement <==> IsAggregatorEvery(path[0]))
            && (p.handlers != [] <==> IsAggregatorEvery(path[0]))
            && (forall k :: 0 <= k < |p.handlers| ==>
                  p.chain[2 + k] == AggregatorElement(p.handlers[k]) && IsAggregatorEvery(path[p.handlers[k]]))
            && forall k :: 0 <= k < |p.chain| && p.chain[k].AggregatorElement? ==> 2 <= k < 2 + |p.handlers|
  {
  }

  /**
   * The walk opens with a maximal run of b Every pipes of one kind (aggregators or buffers;
   * b == 0 when the first pipe is no Every), ...
   */
  predicate OpeningRun(path: seq<NodeKind>, b: nat)
  {
    && b < |path|
    && (b == 0 ==> !path[0].Every?)
    && (b > 0 ==>
          || ((forall k :: 0 <= k < b ==> IsAggregatorEvery(path[k])) && !IsAggregatorEvery(path[b]))
          || ((forall k :: 0 <= k < b ==> IsBufferEvery(path[k])) && !IsBufferEvery(path[b])))
  }

  /** ... followed by a maximal run of Each pipes from b up to the pipe e that ends it. */
  predicate ChainWalk(path: seq<NodeKind>, b: nat, e: nat)
  {
    && OpeningRun(path, b) && b <= e < |path|
    && (forall k :: b <= k < e ==> IsEach(path[k])) && !IsEach(path[e])
  }

  /** A walk splits into its opening run and its Each run in one way only. */
  lemma ChainWalkUnique(path: seq<NodeKind>, b: nat, e: nat, b': nat, e': nat)
    requires ChainWalk(path, b, e) && ChainWalk(path, b', e')
    ensures b == b' && e == e'
  {
    OpeningRunUnique(path, b, b');
  }

  lemma OpeningRunUnique(path: seq<NodeKind>, b: nat, b': nat)
    requires OpeningRun(path, b) && OpeningRun(path, b')
    ensures b == b'
  {
    OpeningRunKind(path, b);
    OpeningRunKind(path, b');
  }

  /** Every pipe of an opening run is an Every of the first pipe's kind. */
  lemma OpeningRunKind(path: seq<NodeKind>, b: nat)
    requires OpeningRun(path, b)
    ensures forall k :: 0 <= k < b ==> path[k].Every? && path[k].isBuffer == path[0].isBuffer
  {
  }

  /** The walk ReducerChain takes is that split. */
  lemma ReducerChainWalk(path: seq<NodeKind>)
    requires EndsAtBoundary(path)
    ensures var a := RunEnd(path, 0, IsAggregatorEvery);
            var b := if a > 0 then a else RunEnd(path, 0, IsBufferEvery);
            ChainWalk(path, b, RunEnd(path, b, IsEach))
  {
  }

  /**
   * The build succeeds exactly when the walk is an opening run of aggregators or of buffers,
   * then a run of Each pipes, then a tap.
   */
  lemma ReducerChainSucceeds(path: seq<NodeKind>)
    requires EndsAtBoundary(path)
    ensures ReducerChain(path).Success? <==> exists b: nat, e: nat :: ChainWalk(path, b, e) && path[e].Tap?
  {
    var a := RunEnd(path, 0, IsAggregatorEvery);
    var b := if a > 0 then a else RunEnd(path, 0, IsBufferEvery);
    var e := RunEnd(path, b, IsEach);
    ReducerChainWalk(path);
    if b': nat, e': nat :| ChainWalk(path, b', e') && path[e'].Tap? {
      ChainWalkUnique(path, b, e, b', e');
    }
  }

  /**
   * The build fails exactly at the pipe that ends the Each run after the opening run, when that
   * pipe is not a tap; every pipe before it was taken into the chain.
   */
  lemma ReducerChainFailure(path: seq<NodeKind>)
    requires EndsAtBoundary(path)
    requires ReducerChain(path).Failure?
    ensures var n := ReducerChain(path).error.node;
            && n < |path| && !path[n].Tap?
            && (forall k :: 0 <= k < n ==> path[k].Every? || path[k].Each?)
            && (exists b: nat :: ChainWalk(path, b, n))
            && forall b: nat, e: nat :: ChainWalk(path, b, e) ==> e == n
  {
    var a := RunEnd(path, 0, IsAggregatorEvery);
    var b := if a > 0 then a else RunEnd(path, 0, IsBufferEvery);
    var n := RunEnd(path, b, IsEach);
    ReducerChainWalk(path);
    forall b': nat, e': nat | ChainWalk(path, b', e')
      ensures e' == n
    {
      ChainWalkUnique(path, b, n, b', e');
    }
  }

  /** The reduce-side task runner. */
  class FlowReducerStack {
    /** stackHead .. stackTail in execution order; empty when no chain was built. */
    var chain: seq<ReducerElement>
    /** The handler list held by the all-aggregator element. */
    var allAggregators: seq<nat>
    /** Opens, collects and closes performed on the chain. */
    var events: seq<StackEvent>

    constructor Empty()
      ensures chain == [] && allAggregators == [] && events == []
    {
      chain, allAggregators, events := [], [], [];
    }

    /**
     * The constructor. With no reduce tasks nothing is built or opened; without a group the
     * step is refused; otherwise the chain is built and then its tail opened once.
     */
    static method Create(numReduceTasks: int, hasGroup: bool, path: seq<NodeKind>)
      returns (r: Result<FlowReducerStack, ConstructionError>)
      requires EndsAtBoundary(path)
      ensures numReduceTasks == 0 ==>
                r.Success? && fresh(r.value) && r.value.chain == [] && r.value.events == []
      ensures numReduceTasks != 0 && !hasGroup ==> r == Failure(IllegalState)
      ensures numReduceTasks != 0 && hasGroup && ReducerChain(path).Failure? ==>
                r == Failure(BuildFailed(ReducerChain(path).error))
      ensures numReduceTasks != 0 && hasGroup && ReducerChain(path).Success? ==>
                && r.Success? && fresh(r.value)
                && r.value.chain == ReducerChain(path).value.chain
                && r.value.allAggregators == ReducerChain(path).value.handlers
                && r.value.events == [OpenTail(0)]
    {
      var stack := new FlowReducerStack.Empty();
      if numReduceTasks == 0 {
        return Success(stack);
      }
      if !hasGroup {
        return Failure(IllegalState);
      }
      var built := stack.BuildStack(path);
      if built.Failure? {
        return Failure(BuildFailed(built.error));
      }
      stack.events := stack.events + [OpenTail(0)];
      return Success(stack);
    }

    /** Walks the step graph from the group and appends one element per stage. */
    method BuildStack(path: seq<NodeKind>) returns (r: Result<(), BuildError>)
      requires EndsAtBoundary(path)
      modifies this`chain, this`allAggregators
      ensures r.Failure? <==> ReducerChain(path).Failure?
      ensures r.Failure? ==> r.error == ReducerChain(path).error
      ensures r.Success? ==>
                chain == ReducerChain(path).value.chain && allAggregators == ReducerChain(path).value.handlers
    {
      chain := [GroupElement];
      allAggregators := [];
      var operator := AppendAggregation(path);
      operator := AppendEaches(path, operator);
      if !path[operator].Tap? {
        return Failure(ClassCast(operator));
      }
      chain := chain + [SinkElement(operator)];
      return Success(());
    }

    /**
     * The aggregation block of buildStack: an all-aggregator and one aggregator element per
     * non-buffer Every, or one element per buffer Every, or nothing; returns the next node.
     */
    method AppendAggregation(path: seq<NodeKind>) returns (operator: nat)
      requires EndsAtBoundary(path) && chain == [GroupElement] && allAggregators == []
      modifies this`chain, this`allAggregators
      ensures var a := RunEnd(path, 0, IsAggregatorEvery);
              && operator == (if a > 0 then a else RunEnd(path, 0, IsBufferEvery))
              && chain == [GroupElement] + AggregationBlock(a, operator)
              && allAggregators == seq(a, k requires 0 <= k => k)
    {
      ghost var a := RunEnd(path, 0, IsAggregatorEvery);
      ghost var b := RunEnd(path, 0, IsBufferEvery);
      operator := 0;
      if IsAggregatorEvery(path[operator]) {
        chain := chain + [AllAggregatorElement];
        while IsAggregatorEvery(path[operator])
          invariant 0 <= operator <= a
          decreases a - operator
          invariant chain == [GroupElement, AllAggregatorElement] + seq(operator, k requires 0 <= k => AggregatorElement(k))
          invariant allAggregators == seq(operator, k requires 0 <= k => k)
        {
          allAggregators := allAggregators + [operator];
          chain := chain + [AggregatorElement(operator)];
          operator := operator + 1;
        }
      } else if IsBufferEvery(path[operator]) {
        while IsBufferEvery(path[operator])
          invariant 0 <= operator <= b
          decreases b - operator
          invariant chain == [GroupElement] + seq(operator, k requires 0 <= k => BufferElement(k))
          invariant allAggregators == []
        {
          chain := chain + [BufferElement(operator)];
          operator := operator + 1;
        }
      }
    }

    /** The Each run of buildStack from node `from`: one element per Each; returns the next node. */
    method AppendEaches(path: seq<NodeKind>, from: nat) returns (operator: nat)
      requires EndsAtBoundary(path) && from < |path|
      modifies this`chain
      ensures operator == RunEnd(path, from, IsEach) && operator < |path|
      ensures chain == old(chain) + seq(operator - from, k requires 0 <= k => EachElement(from + k))
    {
      ghost var e := RunEnd(path, from, IsEach);
      operator := from;
      while path[operator].Each?
        invariant from <= operator <= e
        decreases e - operator
        invariant chain == old(chain) + seq(operator - from, k requires 0 <= k => EachElement(from + k))
      {
        chain := chain + [EachElement(operator)];
        operator := operator + 1;
      }
    }

    /**
     * Hands one key and its grouped values to the chain head, rethrowing a StackException's
     * cause. Without a chain the call on the missing tail raises a NullPointerException.
     */
    method Reduce(key: Tuple, outcome: CollectOutcome) returns (raised: Option<Raised>)
      modifies this
      ensures chain == old(chain) && allAggregators == old(allAggregators)
      ensures old(chain) == [] ==> raised == Some(RaisedNullPointer) && events == old(events)
      ensures old(chain) != [] ==> events == old(events) + [Collect(0, key)]
      ensures old(chain) != [] ==> raised == (if outcome.StackException? then Some(Rethrow(outcome.cause)) else None)
    {
      if chain == [] {
        return Some(RaisedNullPointer);
      }
      events := events + [Collect(0, key)];
      if outcome.StackException? {
        return Some(Rethrow(outcome.cause));
      }
      return None;
    }

    /** Closes the chain head; without a chain the call raises a NullPointerException. */
    method Close() returns (raised: Option<Raised>)
      modifies this
      ensures chain == old(chain) && allAggregators == old(allAggregators)
      ensures old(chain) == [] ==> raised == Some(RaisedNullPointer) && events == old(events)
      ensures old(chain) != [] ==> raised == None && events == old(events) + [CloseHead(0)]
    {
      if chain == [] {
        return Some(RaisedNullPointer);
      }
      events := events + [CloseHead(0)];
      return None;
    }
  }
}
