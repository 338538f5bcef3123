/**
 * What the map-side and reduce-side chain builders share: the kinds of flow elements met
 * while walking a step graph, the length of a run of elements of one kind, the way a
 * StackException's cause is rethrown, and the lifecycle events of the stage chains.
 */
module StepGraph {
  import opened Tuples

  /** The kind of a flow element reached while walking the step graph. */
  datatype NodeKind =
    | Each                  // a function or filter pipe
    | Every(isBuffer: bool) // an aggregator (isBuffer == false) or a buffer (isBuffer == true)
    | Group                 // a grouping boundary (whatever `instanceof Group` accepts: GroupBy, CoGroup)
    | Tap                   // a source or sink
    | Other                 // any other element

  predicate IsEach(n: NodeKind) { n.Each? }

  predicate IsAggregatorEvery(n: NodeKind) { n.Every? && !n.isBuffer }

  predicate IsBufferEvery(n: NodeKind) { n.Every? && n.isBuffer }

  /**
   * The walk a chain builder makes is given as the sequence of elements it meets, in order.
   * A validated step graph ends such a walk at an element that is neither an Each nor an Every.
   */
  predicate EndsAtBoundary(path: seq<NodeKind>)
  {
    |path| > 0 && !path[|path| - 1].Each? && !path[|path| - 1].Every?
  }

  /** The position of the first element at or after `from` that does not satisfy `p`. */
  function RunEnd(path: seq<NodeKind>, from: nat, p: NodeKind -> bool): (end: nat)
    requires from <= |path|
    ensures from <= end <= |path|
    ensures forall k :: from <= k < end ==> p(path[k])
    ensures end < |path| ==> !p(path[end])
    ensures from < |path| && !p(path[|path| - 1]) ==> end < |path|
    decreases |path| - from
  {
    if from == |path| || !p(path[from]) then from else RunEnd(path, from + 1, p)
  }

  /** The throwable a StackException wraps. */
  datatype Cause =
    | IOCause(id: nat)       // an IOException
    | RuntimeCause(id: nat)  // a RuntimeException
    | OtherCause(id: nat)    // any other Throwable: a checked exception or an Error
    | NoCause                // a StackException without a cause

  /** What the task sees thrown. */
  datatype Raised =
    | RaisedIO(id: nat)
    | RaisedRuntime(id: nat)
    | RaisedClassCast
    | RaisedNullPointer

  /** How a call of collect on a chain head ends. */
  datatype CollectOutcome = Collected | StackException(cause: Cause)

  /**
   * The catch block of map and reduce: an IOException cause is rethrown as is, anything else
   * is cast to RuntimeException and rethrown, so that a cause of another type fails the cast
   * and a missing cause makes `throw null` raise a NullPointerException.
   */
  function Rethrow(cause: Cause): (r: Raised)
    ensures r.RaisedIO? <==> cause.IOCause?
    ensures r.RaisedRuntime? <==> cause.RuntimeCause?
    ensures r.RaisedIO? || r.RaisedRuntime? ==> r.id == cause.id
    ensures r == RaisedClassCast <==> cause.OtherCause?
    ensures r == RaisedNullPointer <==> cause.NoCause?
  {
    match cause
    case IOCause(id) => RaisedIO(id)
    case RuntimeCause(id) => RaisedRuntime(id)
    case OtherCause(_) => RaisedClassCast
    case NoCause => RaisedNullPointer
  }

  /** The effects of a task runner on its chains, in the order they happen. */
  datatype StackEvent =
    | OpenTail(chain: nat)
    | Collect(chain: nat, tuple: Tuple)
    | CloseHead(chain: nat)

  /** The opens and closes of a run of events, in order, without the collects between them. */
  function Lifecycle(events: seq<StackEvent>): (r: seq<StackEvent>)
    ensures |r| <= |events|
    ensures forall k :: 0 <= k < |r| ==> !r[k].Collect?
  {
    if events == [] then []
    else (if events[0].Collect? then [] else [events[0]]) + Lifecycle(events[1..])
  }

  /** The events that touch one chain. */
  function EventsOn(events: seq<StackEvent>, chain: nat): seq<StackEvent>
  {
    if events == [] then []
    else (if events[0].chain == chain then [events[0]] else []) + EventsOn(events[1..], chain)
  }
}
