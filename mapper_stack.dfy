/**
 * The map-side task runner: for every outgoing scope of the task's current source it builds one
 * chain of stage elements (the Each pipes, then a group or tap terminal), opens every chain once,
 * feeds each record to the chains in order, and closes every chain.
 */
module MapperStack {
  import opened Wrappers
  import opened Tuples
  import opened StepGraph

  /** A map-side stage element with the position of its pipe in the walk of its scope. */
  datatype MapperElement =
    | EachElement(node: nat)
    | GroupElement(node: nat)
    | TapElement(node: nat)

  /** Scope `scope` ends at a terminal that is neither a group nor a tap. */
  datatype BuildError = NotGroupOrTap(scope: nat, node: nat)

  /** The chain built for one scope's walk, or the position of the refused terminal. */
  function MapperChain(path: seq<NodeKind>): (r: Result<seq<MapperElement>, nat>)
    requires EndsAtBoundary(path)
    ensures r.Success? ==> 1 <= |r.value| <= |path| && !r.value[|r.value| - 1].EachElement?
    ensures r.Failure? ==> r.error < |path| && !path[r.error].Group? && !path[r.error].Tap?
  {
    var e := RunEnd(path, 0, IsEach);
    var eaches := seq(e, k requires 0 <= k => EachElement(k));
    if path[e].Group? then Success(eaches + [GroupElement(e)])
    else if path[e].Tap? then Success(eaches + [TapElement(e)])
    else Failure(e)
  }

  /**
   * A built chain is zero or more Each elements for the pipes 0, 1, ... in order, followed by
   * exactly one terminal, a group or a tap element, for the first pipe that is not an Each.
   */
  lemma MapperChainShape(path: seq<NodeKind>)
    requires EndsAtBoundary(path)
    requires MapperChain(path).Success?
    ensures var c := MapperChain(path).value;
            && |c| >= 1
            && (forall k :: 0 <= k < |c| - 1 ==> c[k] == EachElement(k) && path[k].Each?)
            && (c[|c| - 1] == GroupElement(|c| - 1) || c[|c| - 1] == TapElement(|c| - 1))
            && (c[|c| - 1].GroupElement? <==> path[|c| - 1].Group?)
            && (c[|c| - 1].TapElement? <==> path[|c| - 1].Tap?)
  {
  }

  /** The build of a chain fails exactly when its walk ends at an element other than a group or a tap. */
  lemma MapperChainFailure(path: seq<NodeKind>)
    requires EndsAtBoundary(path)
    ensures MapperChain(path).Failure? <==>
              var e := RunEnd(path, 0, IsEach); !path[e].Group? && !path[e].Tap?
    ensures MapperChain(path).Failure? ==>
              var n := MapperChain(path).error;
              && n < |path| && !path[n].Group? && !path[n].Tap? && !path[n].Each?
              && forall k :: 0 <= k < n ==> path[k].Each?
  {
  }

  predicate AllEndAtBoundary(scopes: seq<seq<NodeKind>>)
  {
    forall j :: 0 <= j < |scopes| ==> EndsAtBoundary(scopes[j])
  }

  /**
   * What one call of map hands to the chains from chain i on, given what the source yields each
   * time it is asked (once per chain, in chain order; None for null) and how each chain's collect
   * ends: the collect events, and the exception raised, if any.
   */
  function Dispatch(sourced: seq<Option<Tuple>>, outcomes: seq<CollectOutcome>, i: nat)
    : (r: (seq<StackEvent>, Option<Raised>))
    requires |outcomes| == |sourced| && i <= |sourced|
    ensures |r.0| <= |sourced| - i
    ensures forall k :: 0 <= k < |r.0| ==> r.0[k].Collect? && i <= r.0[k].chain
    ensures forall k, l :: 0 <= k < l < |r.0| ==> r.0[k].chain < r.0[l].chain
    ensures r.1.Some? ==> r.0 != []
    decreases |sourced| - i
  {
    if i == |sourced| || sourced[i].None? then ([], None)
    else if outcomes[i].StackException? then ([Collect(i, sourced[i].value)], Some(Rethrow(outcomes[i].cause)))
    else
      var rest := Dispatch(sourced, outcomes, i + 1);
      ([Collect(i, sourced[i].value)] + rest.0, rest.1)
  }

  /**
   * Chains are fed in order from chain i on, each with the tuple the source yielded for it; the
   * feeding stops at the first null tuple, which reaches no chain and raises nothing, or at the
   * first collect that fails, whose cause is rethrown.
   */
  lemma {:induction false} DispatchInOrder(sourced: seq<Option<Tuple>>, outcomes: seq<CollectOutcome>, i: nat)
    requires |outcomes| == |sourced| && i <= |sourced|
    ensures var (evs, raised) := Dispatch(sourced, outcomes, i);
            && i + |evs| <= |sourced|
            && (forall k :: i <= k < i + |evs| ==> sourced[k].Some? && evs[k - i] == Collect(k, sourced[k].value))
            && (forall k :: i <= k < i + |evs| - 1 ==> outcomes[k].Collected?)
            && (raised.Some? <==> |evs| > 0 && outcomes[i + |evs| - 1].StackException?)
            && (raised.Some? ==> raised.value == Rethrow(outcomes[i + |evs| - 1].cause))
            && (raised.None? && i + |evs| < |sourced| ==> sourced[i + |evs|].None?)
    decreases |sourced| - i
  {
    if i < |sourced| && sourced[i].Some? && outcomes[i].Collected? {
      DispatchInOrder(sourced, outcomes, i + 1);
    }
  }

  /** A null tuple for chain i means that chain i and every later chain get nothing from the record. */
  lemma NullStopsDispatch(sourced: seq<Option<Tuple>>, outcomes: seq<CollectOutcome>, i: nat)
    requires |outcomes| == |sourced| && i < |sourced|
    requires sourced[i].None?
    ensures var evs := Dispatch(sourced, outcomes, 0).0;
            forall k :: 0 <= k < |evs| ==> evs[k].chain < i
  {
    DispatchInOrder(sourced, outcomes, 0);
    var evs := Dispatch(sourced, outcomes, 0).0;
    forall k | 0 <= k < |evs|
      ensures evs[k].chain < i
    {
      assert sourced[k].Some?;
    }
  }

  /** The map-side task runner. */
  class FlowMapperStack {
    /** One chain per outgoing scope of the current source, each head first. */
    var stacks: array<seq<MapperElement>>
    /** Opens, collects and closes performed on the chains. */
    var events: seq<StackEvent>
    /** The Tuples_Read counter. */
    var tuplesRead: nat

    constructor Empty()
      ensures events == [] && tuplesRead == 0 && stacks.Length == 0 && fresh(stacks)
    {
      stacks := new seq<MapperElement>[0];
      events, tuplesRead := [], 0;
    }

    /**
     * The constructor: builds every chain, and only once all are built opens each chain's tail,
     * in chain order. A refused terminal aborts construction before anything is opened.
     */
    static method Create(scopes: seq<seq<NodeKind>>) returns (r: Result<FlowMapperStack, BuildError>)
      requires AllEndAtBoundary(scopes)
      ensures r.Success? <==> forall j :: 0 <= j < |scopes| ==> MapperChain(scopes[j]).Success?
      ensures r.Failure? ==>
                var i := r.error.scope;
                && i < |scopes|
                && (forall j :: 0 <= j < i ==> MapperChain(scopes[j]).Success?)
                && MapperChain(scopes[i]) == Failure(r.error.node)
      ensures r.Success? ==>
                && fresh(r.value) && fresh(r.value.stacks)
                && r.value.stacks.Length == |scopes|
                && (forall j :: 0 <= j < |scopes| ==> r.value.stacks[j] == MapperChain(scopes[j]).value)
                && r.value.events == seq(|scopes|, j requires 0 <= j => OpenTail(j))
                && r.value.tuplesRead == 0
    {
      var stack := new FlowMapperStack.Empty();
      var built := stack.BuildStack(scopes);
      if built.Failure? {
        return Failure(built.error);
      }
      var stacks := stack.stacks;
      ghost var chains := stacks[..];
      for i := 0 to stacks.Length
        invariant stack.events == seq(i, j requires 0 <= j => OpenTail(j))
        invariant stack.tuplesRead == 0
        invariant stack.stacks == stacks && stacks[..] == chains
      {
        stack.events := stack.events + [OpenTail(i)];
      }
      return Success(stack);
    }

    /** Builds one chain per scope into a fresh stacks array, in scope order. */
    method BuildStack(scopes: seq<seq<NodeKind>>) returns (r: Result<(), BuildError>)
      requires AllEndAtBoundary(scopes)
      modifies this
      ensures events == old(events) && tuplesRead == old(tuplesRead)
      ensures fresh(stacks) && stacks.Length == |scopes|
      ensures r.Success? <==> forall j :: 0 <= j < |scopes| ==> MapperChain(scopes[j]).Success?
      ensures r.Failure? ==>
                var i := r.error.scope;
                && i < |scopes|
                && (forall j :: 0 <= j < i ==> MapperChain(scopes[j]).Success?)
                && MapperChain(scopes[i]) == Failure(r.error.node)
      ensures r.Success? ==> forall j :: 0 <= j < |scopes| ==> stacks[j] == MapperChain(scopes[j]).value
    {
      stacks := new seq<MapperElement>[|scopes|];
      for i := 0 to |scopes|
        invariant fresh(stacks) && stacks.Length == |scopes|
        invariant forall j :: 0 <= j < i ==> MapperChain(scopes[j]).Success? && stacks[j] == MapperChain(scopes[j]).value
        invariant events == old(events) && tuplesRead == old(tuplesRead)
      {
        var path := scopes[i];
        ghost var e := RunEnd(path, 0, IsEach);
        var operator := 0;
        var tail: seq<MapperElement> := [];
        while path[operator].Each?
          invariant 0 <= operator <= e
          invariant tail == seq(operator, k requires 0 <= k => EachElement(k))
          decreases e - operator
        {
          tail := tail + [EachElement(operator)];
          operator := operator + 1;
        }
        if path[operator].Group? {
          tail := tail + [GroupElement(operator)];
        } else if path[operator].Tap? {
          tail := tail + [TapElement(operator)];
        } else {
          return Failure(NotGroupOrTap(i, operator));
        }
        stacks[i] := tail;
      }
      return Success(());
    }

    /**
     * Counts the record once, then for each chain in order asks the source for a tuple, returning
     * at the first null and otherwise handing the tuple to the chain head; a failing collect's
     * cause is rethrown.
     */
    method Map(sourced: seq<Option<Tuple>>, outcomes: seq<CollectOutcome>) returns (raised: Option<Raised>)
      requires |sourced| == stacks.Length && |outcomes| == stacks.Length
      modifies this
      ensures stacks == old(stacks)
      ensures tuplesRead == old(tuplesRead) + 1
      ensures events == old(events) + Dispatch(sourced, outcomes, 0).0
      ensures raised == Dispatch(sourced, outcomes, 0).1
      ensures Lifecycle(events) == Lifecycle(old(events))
    {
      LifecycleOfCollects(old(events), Dispatch(sourced, outcomes, 0).0);
      tuplesRead := tuplesRead + 1;
      var i := 0;
      while i < stacks.Length
        invariant 0 <= i <= stacks.Length
        invariant stacks == old(stacks) && tuplesRead == old(tuplesRead) + 1
        invariant events + Dispatch(sourced, outcomes, i).0 == old(events) + Dispatch(sourced, outcomes, 0).0
        invariant Dispatch(sourced, outcomes, i).1 == Dispatch(sourced, outcomes, 0).1
      {
        var tuple := sourced[i];
        if tuple.None? {
          return None;
        }
        events := events + [Collect(i, tuple.value)];
        if outcomes[i].StackException? {
          return Some(Rethrow(outcomes[i].cause));
        }
        i := i + 1;
      }
      return None;
    }

    /** Closes the head of every chain, in chain order. */
    method Close()
      modifies this
      ensures stacks == old(stacks) && tuplesRead == old(tuplesRead)
      ensures events == old(events) + seq(stacks.Length, j requires 0 <= j => CloseHead(j))
    {
      for i := 0 to stacks.Length
        invariant stacks == old(stacks) && tuplesRead == old(tuplesRead)
        invariant events == old(events) + seq(i, j requires 0 <= j => CloseHead(j))
      {
        events := events + [CloseHead(i)];
      }
    }
  }

  /**
   * Over a task's life (construction, any number of map calls, close) each chain's tail is
   * opened once and its head closed once, in that order: given the log of a stack whose opens
   * and closes so far are construction's opens (Create establishes it and Map keeps it), the
   * log after Close holds, for chain i, exactly the open of i and then the close of i.
   */
  lemma EachChainOpenedAndClosedOnce(n: nat, log: seq<StackEvent>, i: nat)
    requires i < n
    requires Lifecycle(log) == seq(n, j requires 0 <= j => OpenTail(j))
    ensures EventsOn(Lifecycle(log + seq(n, j requires 0 <= j => CloseHead(j))), i) == [OpenTail(i), CloseHead(i)]
  {
    var opens := seq(n, j requires 0 <= j => OpenTail(j));
    var closes := seq(n, j requires 0 <= j => CloseHead(j));
    LifecycleAppend(log, closes);
    LifecycleKeeps(closes);
    EventsOnAppend(opens, closes, i);
    EventsOnDistinct(opens, i);
    EventsOnDistinct(closes, i);
  }

  /** Construction's log is all opens. */
  lemma ConstructionLifecycle(n: nat)
    ensures Lifecycle(seq(n, j requires 0 <= j => OpenTail(j))) == seq(n, j requires 0 <= j => OpenTail(j))
  {
    LifecycleKeeps(seq(n, j requires 0 <= j => OpenTail(j)));
  }

  lemma {:induction false} LifecycleAppend(a: seq<StackEvent>, b: seq<StackEvent>)
    ensures Lifecycle(a + b) == Lifecycle(a) + Lifecycle(b)
    decreases |a|
  {
    if a == [] {
      assert a + b == b;
    } else {
      assert (a + b)[1..] == a[1..] + b;
      LifecycleAppend(a[1..], b);
    }
  }

  /** A run without collects is its own lifecycle. */
  lemma {:induction false} LifecycleKeeps(evs: seq<StackEvent>)
    requires forall k :: 0 <= k < |evs| ==> !evs[k].Collect?
    ensures Lifecycle(evs) == evs
    decreases |evs|
  {
    if evs != [] {
      LifecycleKeeps(evs[1..]);
    }
  }

  /** Appending collects leaves the lifecycle as it was. */
  lemma {:induction false} LifecycleOfCollects(log: seq<StackEvent>, evs: seq<StackEvent>)
    requires forall k :: 0 <= k < |evs| ==> evs[k].Collect?
    ensures Lifecycle(log + evs) == Lifecycle(log)
    decreases |evs|
  {
    LifecycleAppend(log, evs);
    CollectsOnly(evs);
  }

  lemma {:induction false} CollectsOnly(evs: seq<StackEvent>)
    requires forall k :: 0 <= k < |evs| ==> evs[k].Collect?
    ensures Lifecycle(evs) == []
    decreases |evs|
  {
    if evs != [] {
      CollectsOnly(evs[1..]);
    }
  }

  lemma {:induction false} EventsOnAppend(a: seq<StackEvent>, b: seq<StackEvent>, i: nat)
    ensures EventsOn(a + b, i) == EventsOn(a, i) + EventsOn(b, i)
    decreases |a|
  {
    if a == [] {
      assert a + b == b;
    } else {
      var head := if a[0].chain == i then [a[0]] else [];
      assert (a + b)[0] == a[0] && (a + b)[1..] == a[1..] + b;
      assert EventsOn(a + b, i) == head + EventsOn(a[1..] + b, i);
      EventsOnAppend(a[1..], b, i);
      assert EventsOn(a, i) == head + EventsOn(a[1..], i);
    }
  }

  /** In a sequence whose k-th event is on chain k, chain i is touched by event i alone. */
  lemma {:induction false} EventsOnDistinct(evs: seq<StackEvent>, i: nat)
    requires i < |evs|
    requires forall k :: 0 <= k < |evs| ==> evs[k].chain == k
    ensures EventsOn(evs, i) == [evs[i]]
  {
    EventsOnShifted(evs, 0, i);
  }

  lemma {:induction false} EventsOnShifted(evs: seq<StackEvent>, from: nat, i: nat)
    requires forall k :: 0 <= k < |evs| ==> evs[k].chain == from + k
    ensures from <= i < from + |evs| ==> EventsOn(evs, i) == [evs[i - from]]
    ensures !(from <= i < from + |evs|) ==> EventsOn(evs, i) == []
    decreases |evs|
  {
    if evs != [] {
      EventsOnShifted(evs[1..], from + 1, i);
    }
  }
}
