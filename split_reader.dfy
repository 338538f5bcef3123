/**
 * The iterator a Hadoop tap hands out when its resource is opened for reading: it walks the
 * input splits in order, creating one record reader per split on demand and closing the
 * previous reader before creating the next. Readers are identified by their split's index.
 */
module SplitReaderSpec {
  import opened Wrappers

  /** What happened to a record reader: created for a split, or closed. */
  datatype ReaderEvent = Created(split: nat) | Closed(split: nat)

  /** next was called on a complete iterator (IllegalStateException "no more values"). */
  datatype IteratorError = NoMoreValues

  /**
   * The iterator's fields. `reader` is the reader created by hasNext and not yet handed out by
   * next; `lastReader` the most recently created one; `log` the readers' lifecycle so far.
   */
  datatype ReaderState = ReaderState(
    splitCount: nat,
    currentSplit: nat,
    complete: bool,
    reader: Option<nat>,
    lastReader: Option<nat>,
    log: seq<ReaderEvent>)

  /** The calls a client can make. */
  datatype Op = HasNextOp | NextOp | CloseOp

  /** initialize: a missing resource or zero splits leave the iterator complete from the start. */
  function Initial(resourceExists: bool, splitCount: nat): (s: ReaderState)
    ensures s.complete <==> !resourceExists || splitCount == 0
    ensures s.currentSplit == 0 && s.reader.None? && s.lastReader.None? && s.log == []
  {
    if !resourceExists then ReaderState(0, 0, true, None, None, [])
    else ReaderState(splitCount, 0, splitCount == 0, None, None, [])
  }

  /** The close of the last created reader, if there is one. */
  function CloseLast(lastReader: Option<nat>): seq<ReaderEvent>
  {
    if lastReader.Some? then [Closed(lastReader.value)] else []
  }

  /**
   * getNextReader: nothing to do when complete or a reader is pending; otherwise close the last
   * reader and create one for the current split, or become complete when no split is left.
   */
  function GetNextReaderStep(s: ReaderState): (t: ReaderState)
    ensures s.complete || s.reader.Some? ==> t == s
    ensures s.log <= t.log && |t.log| <= |s.log| + 2
    ensures s.currentSplit <= t.currentSplit <= s.currentSplit + 1
    ensures t.currentSplit > s.currentSplit <==> t.log != s.log && t.log[|t.log| - 1] == Created(s.currentSplit)
    ensures !t.complete ==> t.reader.Some?
  {
    if s.complete || s.reader.Some? then s
    else if s.currentSplit < s.splitCount then
      s.(log := s.log + CloseLast(s.lastReader) + [Created(s.currentSplit)],
         reader := Some(s.currentSplit),
         lastReader := Some(s.currentSplit),
         currentSplit := s.currentSplit + 1)
    else s.(complete := true)
  }

  /** hasNext: getNextReader, then whether the iterator is still incomplete. */
  function HasNextStep(s: ReaderState): (r: (ReaderState, bool))
    ensures r.1 <==> !r.0.complete
    ensures r.1 ==> r.0.reader.Some?
    ensures s.log <= r.0.log && s.currentSplit <= r.0.currentSplit <= s.currentSplit + 1
  {
    var t := GetNextReaderStep(s);
    (t, !t.complete)
  }

  /**
   * next: an error when complete; otherwise getNextReader, hand out the pending reader (None
   * standing for null) and clear it.
   */
  function NextStep(s: ReaderState): (r: Result<(ReaderState, Option<nat>), IteratorError>)
    ensures r.Failure? <==> s.complete
    ensures r.Success? ==> r.value.0.reader.None? && s.log <= r.value.0.log
    ensures r.Success? ==> (r.value.1.None? <==> r.value.0.complete)
  {
    if s.complete then Failure(NoMoreValues)
    else
      var t := GetNextReaderStep(s);
      Success((t.(reader := None), t.reader))
  }

  /** close: closes the last created reader, if any. */
  function CloseStep(s: ReaderState): (t: ReaderState)
    ensures t.(log := s.log) == s
    ensures s.log <= t.log && |t.log| <= |s.log| + 1
    ensures forall k :: |s.log| <= k < |t.log| ==> t.log[k].Closed?
  {
    s.(log := s.log + CloseLast(s.lastReader))
  }

  function Apply(s: ReaderState, op: Op): ReaderState
  {
    match op
    case HasNextOp => HasNextStep(s).0
    case NextOp => if NextStep(s).Success? then NextStep(s).value.0 else s
    case CloseOp => CloseStep(s)
  }

  /** The state after a sequence of calls; a call to next that fails leaves the state alone. */
  function Run(s: ReaderState, ops: seq<Op>): ReaderState
    decreases |ops|
  {
    if ops == [] then s else Run(Apply(s, ops[0]), ops[1..])
  }

  /** The splits readers were created for, in creation order. */
  function Creations(log: seq<ReaderEvent>): seq<nat>
  {
    if log == [] then []
    else Creations(log[..|log| - 1]) + if log[|log| - 1].Created? then [log[|log| - 1].split] else []
  }

  function Range(n: nat): seq<nat>
  {
    seq(n, i requires 0 <= i => i)
  }

  /** Every reader but the first is created right after its predecessor is closed. */
  ghost predicate ClosedBeforeNext(log: seq<ReaderEvent>)
  {
    forall t :: 0 <= t < |log| && log[t].Created? && log[t].split > 0 ==>
      t > 0 && log[t - 1] == Closed(log[t].split - 1)
  }

  /** Only readers for splits before n have been closed. */
  ghost predicate ClosesCreated(log: seq<ReaderEvent>, n: nat)
  {
    forall t :: 0 <= t < |log| && log[t].Closed? ==> log[t].split < n
  }

  ghost predicate Inv(s: ReaderState)
  {
    && s.currentSplit <= s.splitCount
    && Creations(s.log) == Range(s.currentSplit)
    && ClosedBeforeNext(s.log)
    && ClosesCreated(s.log, s.currentSplit)
    && s.lastReader == (if s.currentSplit == 0 then None else Some(s.currentSplit - 1))
    && (s.reader.Some? ==> s.reader == s.lastReader && !s.complete)
  }

  lemma CreationsSnoc(log: seq<ReaderEvent>, e: ReaderEvent)
    ensures Creations(log + [e]) == Creations(log) + if e.Created? then [e.split] else []
  {
    assert (log + [e])[..|log|] == log;
  }

  /**
   * A missing resource or zero splits make the iterator complete from the start: hasNext is
   * false and next fails; otherwise it starts incomplete with no reader created.
   */
  lemma InitiallyComplete(resourceExists: bool, splitCount: nat)
    ensures Inv(Initial(resourceExists, splitCount))
    ensures Initial(resourceExists, splitCount).complete <==> !resourceExists || splitCount == 0
    ensures !resourceExists || splitCount == 0 ==>
      !HasNextStep(Initial(resourceExists, splitCount)).1 && NextStep(Initial(resourceExists, splitCount)).Failure?
  {
    assert Range(0) == [];
  }

  /** Closing a reader creates none. */
  lemma CreationsAfterClose(log: seq<ReaderEvent>, lastReader: Option<nat>)
    ensures Creations(log + CloseLast(lastReader)) == Creations(log)
  {
    if lastReader.Some? {
      CreationsSnoc(log, Closed(lastReader.value));
    } else {
      assert log + CloseLast(lastReader) == log;
    }
  }

  /** Creating the reader for split k after closing reader k - 1 keeps every later reader's predecessor closed. */
  lemma ClosedBeforeNextOnCreate(log: seq<ReaderEvent>, k: nat)
    requires ClosedBeforeNext(log)
    requires k > 0 ==> |log| > 0 && log[|log| - 1] == Closed(k - 1)
    ensures ClosedBeforeNext(log + [Created(k)])
  {
    var t := log + [Created(k)];
    forall i | 0 <= i < |t| && t[i].Created? && t[i].split > 0
      ensures i > 0 && t[i - 1] == Closed(t[i].split - 1)
    {
      if i < |log| {
        assert t[i] == log[i] && t[i - 1] == log[i - 1];
      }
    }
  }

  /** getNextReader keeps the invariant: creation in split order, each previous reader closed first. */
  lemma GetNextReaderKeepsInv(s: ReaderState)
    requires Inv(s)
    ensures Inv(GetNextReaderStep(s))
  {
    if !s.complete && s.reader.None? && s.currentSplit < s.splitCount {
      CreateKeepsInv(s);
    }
  }

  /** The creating branch of getNextReader: close reader k - 1, then create reader k. */
  lemma CreateKeepsInv(s: ReaderState)
    requires Inv(s) && !s.complete && s.reader.None? && s.currentSplit < s.splitCount
    ensures Inv(GetNextReaderStep(s))
  {
    var k := s.currentSplit;
    assert GetNextReaderStep(s)
        == s.(log := s.log + CloseLast(s.lastReader) + [Created(k)],
              reader := Some(k), lastReader := Some(k), currentSplit := k + 1);
    CreateLogKeepsInv(s.log, s.lastReader, k);
  }

  /** The log of getNextReader's creating branch keeps the log's part of the invariant. */
  lemma CreateLogKeepsInv(log: seq<ReaderEvent>, lastReader: Option<nat>, k: nat)
    requires Creations(log) == Range(k) && ClosedBeforeNext(log) && ClosesCreated(log, k)
    requires lastReader == (if k == 0 then None else Some(k - 1))
    ensures var next := log + CloseLast(lastReader) + [Created(k)];
            Creations(next) == Range(k + 1) && ClosedBeforeNext(next) && ClosesCreated(next, k + 1)
  {
    var closing := log + CloseLast(lastReader);
    CreationsAfterClose(log, lastReader);
    CreationsSnoc(closing, Created(k));
    assert Range(k) + [k] == Range(k + 1);
    CreateLogOrder(log, lastReader, k);
    ClosesCreatedGrow(log, CloseLast(lastReader) + [Created(k)], k, k + 1);
    assert closing + [Created(k)] == log + (CloseLast(lastReader) + [Created(k)]);
  }

  /** Reader k is created right after reader k - 1 is closed. */
  lemma CreateLogOrder(log: seq<ReaderEvent>, lastReader: Option<nat>, k: nat)
    requires ClosedBeforeNext(log)
    requires lastReader == (if k == 0 then None else Some(k - 1))
    ensures ClosedBeforeNext(log + CloseLast(lastReader) + [Created(k)])
  {
    var closing := log + CloseLast(lastReader);
    if lastReader.Some? {
      ClosedBeforeNextOnClose(log, lastReader.value);
    } else {
      assert closing == log;
    }
    ClosedBeforeNextOnCreate(closing, k);
  }

  /** Appending events about readers before m keeps every close about a reader before m. */
  lemma ClosesCreatedGrow(log: seq<ReaderEvent>, more: seq<ReaderEvent>, n: nat, m: nat)
    requires ClosesCreated(log, n) && n <= m
    requires forall t :: 0 <= t < |more| && more[t].Closed? ==> more[t].split < m
    ensures ClosesCreated(log + more, m)
  {
    forall t | 0 <= t < |log + more| && (log + more)[t].Closed?
      ensures (log + more)[t].split < m
    {
      if t < |log| {
        assert (log + more)[t] == log[t];
      } else {
        assert (log + more)[t] == more[t - |log|];
      }
    }
  }

  /** A close creates nothing, so it cannot break the order of creations. */
  lemma ClosedBeforeNextOnClose(log: seq<ReaderEvent>, j: nat)
    requires ClosedBeforeNext(log)
    ensures ClosedBeforeNext(log + [Closed(j)])
  {
    var t := log + [Closed(j)];
    forall i | 0 <= i < |t| && t[i].Created? && t[i].split > 0
      ensures i > 0 && t[i - 1] == Closed(t[i].split - 1)
    {
      assert i < |log| && t[i] == log[i] && t[i - 1] == log[i - 1];
    }
  }

  lemma HasNextKeepsInv(s: ReaderState)
    requires Inv(s)
    ensures Inv(HasNextStep(s).0)
  {
    GetNextReaderKeepsInv(s);
  }

  lemma NextKeepsInv(s: ReaderState)
    requires Inv(s) && NextStep(s).Success?
    ensures Inv(NextStep(s).value.0)
  {
    GetNextReaderKeepsInv(s);
  }

  lemma CloseKeepsInv(s: ReaderState)
    requires Inv(s)
    ensures Inv(CloseStep(s))
  {
    CreationsAfterClose(s.log, s.lastReader);
    ClosesCreatedGrow(s.log, CloseLast(s.lastReader), s.currentSplit, s.currentSplit);
    if s.lastReader.Some? {
      ClosedBeforeNextOnClose(s.log, s.lastReader.value);
    }
  }

  /**
   * Whatever the calls, readers are created for splits 0, 1, … in order, each at most once,
   * currentSplit never passes the split count, and each reader is closed before the next one
   * is created.
   */
  lemma {:induction false} RunKeepsInv(s: ReaderState, ops: seq<Op>)
    requires Inv(s)
    ensures Inv(Run(s, ops))
    decreases |ops|
  {
    if ops != [] {
      match ops[0] {
        case HasNextOp => HasNextKeepsInv(s);
        case NextOp => if NextStep(s).Success? { NextKeepsInv(s); }
        case CloseOp => CloseKeepsInv(s);
      }
      RunKeepsInv(Apply(s, ops[0]), ops[1..]);
    }
  }

  /** A second hasNext without an intervening next creates no reader and does not advance. */
  lemma HasNextIdempotent(s: ReaderState)
    ensures HasNextStep(HasNextStep(s).0) == HasNextStep(s)
  {
  }

  /** Once complete, hasNext is false, next fails, and nothing changes but closes. */
  lemma CompleteIsFinal(s: ReaderState)
    requires s.complete
    ensures HasNextStep(s) == (s, false)
    ensures NextStep(s) == Failure(NoMoreValues)
    ensures CloseStep(s).complete
  {
  }

  /** Once complete, the iterator stays complete whatever is called. */
  lemma {:induction false} RunKeepsComplete(s: ReaderState, ops: seq<Op>)
    requires s.complete
    ensures Run(s, ops).complete
    decreases |ops|
  {
    if ops != [] {
      CompleteIsFinal(s);
      RunKeepsComplete(Apply(s, ops[0]), ops[1..]);
    }
  }

  /**
   * next leaves no reader pending, so the following hasNext or next creates the reader for the
   * next split after closing the one just handed out.
   */
  lemma NextMovesOn(s: ReaderState)
    requires Inv(s) && NextStep(s).Success?
    ensures NextStep(s).value.0.reader.None?
    ensures var t := NextStep(s).value.0;
      !t.complete && t.currentSplit < t.splitCount ==>
        var u := GetNextReaderStep(t);
        u.reader == Some(t.currentSplit) && u.currentSplit == t.currentSplit + 1
        && (t.currentSplit > 0 ==> u.log == t.log + [Closed(t.currentSplit - 1), Created(t.currentSplit)])
  {
    NextKeepsInv(s);
    var t := NextStep(s).value.0;
    if !t.complete && t.currentSplit < t.splitCount {
      var k := t.currentSplit;
      assert t.reader.None?;
      assert GetNextReaderStep(t)
          == t.(log := t.log + CloseLast(t.lastReader) + [Created(k)],
                reader := Some(k), lastReader := Some(k), currentSplit := k + 1);
      if k > 0 {
        assert CloseLast(t.lastReader) == [Closed(k - 1)];
      }
    }
  }

  /** next without hasNext after the last split hands out null and completes, rather than failing. */
  lemma NextAfterLastSplit(s: ReaderState)
    requires Inv(s) && !s.complete && s.reader.None? && s.currentSplit == s.splitCount
    ensures NextStep(s) == Success((s.(complete := true), None))
  {
  }

  /** close closes the last created reader when one was created, and does nothing otherwise. */
  lemma CloseClosesLastCreated(s: ReaderState)
    requires Inv(s)
    ensures s.currentSplit == 0 ==> CloseStep(s) == s
    ensures s.currentSplit > 0 ==> CloseStep(s).log == s.log + [Closed(s.currentSplit - 1)]
  {
  }
}

module SplitReader {
  import opened Wrappers
  import opened SplitReaderSpec

  class MultiRecordReaderIterator {
    /** splits.length (zero when the resource does not exist). */
    var splitCount: nat
    var currentSplit: nat
    var complete: bool
    var reader: Option<nat>
    var lastReader: Option<nat>
    /** What has been done to the record readers so far. */
    var log: seq<ReaderEvent>

    function State(): ReaderState
      reads this
    {
      ReaderState(splitCount, currentSplit, complete, reader, lastReader, log)
    }

    ghost predicate Valid()
      reads this
    {
      Inv(State())
    }

    /** The constructor with initialize: the tap's resource and its splits are given. */
    constructor (resourceExists: bool, splits: nat)
      ensures State() == Initial(resourceExists, splits) && Valid()
    {
      currentSplit := 0;
      complete := false;
      reader := None;
      lastReader := None;
      log := [];
      splitCount := 0;
      new;
      if !resourceExists {
        complete := true;
        InitiallyComplete(resourceExists, splits);
        return;
      }
      splitCount := splits;
      if splits == 0 {
        complete := true;
      }
      InitiallyComplete(resourceExists, splits);
    }

    /** makeReader: a reader for split `split`. */
    method MakeReader(split: nat) returns (r: nat)
      modifies this`log
      ensures r == split && log == old(log) + [Created(split)]
    {
      log := log + [Created(split)];
      r := split;
    }

    method GetNextReader()
      requires Valid()
      modifies this
      ensures State() == GetNextReaderStep(old(State())) && Valid()
    {
      ghost var s := State();
      GetNextReaderKeepsInv(s);
      if complete || reader.Some? {
        return;
      }
      if currentSplit < splitCount {
        if lastReader.Some? {
          log := log + [Closed(lastReader.value)];
        }
        var r := MakeReader(currentSplit);
        currentSplit := currentSplit + 1;
        reader := Some(r);
        lastReader := reader;
        assert log == s.log + CloseLast(s.lastReader) + [Created(s.currentSplit)];
      } else {
        complete := true;
      }
    }

    method HasNext() returns (b: bool)
      requires Valid()
      modifies this
      ensures (State(), b) == HasNextStep(old(State())) && Valid()
    {
      GetNextReader();
      b := !complete;
    }

    /** next: the pending reader, None standing for null, or NoMoreValues when complete. */
    method Next() returns (r: Result<Option<nat>, IteratorError>)
      requires Valid()
      modifies this
      ensures NextStep(old(State())).Success? <==> r.Success?
      ensures r.Failure? ==> r.error == NoMoreValues && State() == old(State())
      ensures r.Success? ==> (State(), r.value) == NextStep(old(State())).value
      ensures Valid()
    {
      if complete {
        return Failure(NoMoreValues);
      }
      NextKeepsInv(State());
      GetNextReader();
      r := Success(reader);
      reader := None;
    }

    method Close()
      requires Valid()
      modifies this
      ensures State() == CloseStep(old(State())) && Valid()
    {
      CloseKeepsInv(State());
      if lastReader.Some? {
        log := log + [Closed(lastReader.value)];
      }
    }
  }
}
