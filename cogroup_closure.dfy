/**
 * The co-group closure of one reduce task: for each grouping it sorts the grouping's
 * index-tagged tuples into one collection per join position, lets position 0 stream straight
 * from the input when there are no self-joins, and makes every position alias one shared
 * collection when there are.
 */
module CoGroup {
  import opened Wrappers
  import opened Tuples
  import opened CoGroupSpec

  /** The grouping's merged input iterator: the index tuples not read yet are items[cursor..]. */
  class InputIterator {
    const items: seq<IndexTuple>
    var cursor: nat

    ghost predicate Valid()
      reads this
    {
      cursor <= |items|
    }

    function Rest(): seq<IndexTuple>
      reads this
      requires Valid()
    {
      items[cursor..]
    }

    constructor (items: seq<IndexTuple>)
      ensures Valid() && this.items == items && Rest() == items
    {
      this.items := items;
      cursor := 0;
    }

    predicate HasNext()
      reads this
      requires Valid()
      ensures HasNext() <==> Rest() != []
    {
      cursor < |items|
    }

    method Next() returns (t: IndexTuple)
      requires Valid() && HasNext()
      modifies this
      ensures Valid() && t == old(Rest())[0] && Rest() == old(Rest())[1..]
    {
      t := items[cursor];
      cursor := cursor + 1;
    }
  }

  /**
   * The iterator createIterator hands to the pass-through collection: it yields the tuple of
   * `value` and then reads ahead one index tuple from the shared input iterator per call.
   */
  class PassThroughIterator {
    var value: Option<IndexTuple>
    const values: InputIterator

    ghost predicate Valid()
      reads this, values
    {
      values.Valid() && (value.None? ==> values.Rest() == [])
    }

    /** The tuples the iterator has yet to yield, in order. */
    function Remaining(): seq<Tuple>
      reads this, values
      requires Valid()
    {
      if value.None? then [] else [value.value.tuple] + ValueTuples(values.Rest())
    }

    constructor (current: IndexTuple, values: InputIterator)
      requires values.Valid()
      ensures Valid() && this.values == values
      ensures Remaining() == [current.tuple] + ValueTuples(values.Rest())
    {
      value := Some(current);
      this.values := values;
    }

    /** hasNext is false exactly when every tuple has been yielded. */
    predicate HasNext()
      reads this, values
      requires Valid()
      ensures HasNext() <==> Remaining() != []
    {
      value.Some?
    }

    /**
     * Yields the next tuple, in input order. Once every tuple has been yielded, `value` is null
     * and reading its tuple raises a NullPointerException.
     */
    method Next() returns (r: Result<Tuple, ClosureError>)
      requires Valid()
      modifies this, values
      ensures Valid()
      ensures old(Remaining()) == [] ==> r == Failure(NullValue) && Remaining() == []
      ensures old(Remaining()) != [] ==>
                r == Success(old(Remaining())[0]) && Remaining() == old(Remaining())[1..]
    {
      if value.None? {
        return Failure(NullValue);
      }
      ghost var before := Remaining();
      ghost var rest := values.Rest();
      var t := value.value.tuple;
      r := Success(t);
      assert before == [t] + ValueTuples(rest);
      if values.HasNext() {
        var v := values.Next();
        value := Some(v);
        ValueTuplesCons(rest);
        assert Remaining() == ValueTuples(rest);
      } else {
        value := None;
      }
    }
  }

  /** What the closure and its iterators raise. */
  datatype ClosureError =
    | InvalidGroupPosition(pos: int) // getIterator: IllegalArgumentException for a position outside [0, size())
    | PositionOutOfBounds(pos: int)  // isEmpty: ArrayIndexOutOfBoundsException for such a position
    | NullValue                      // the pass-through iterator's next once exhausted: NullPointerException

  /** The task counters (flowProcess) the spill listeners increment. */
  class TaskCounters {
    var counts: SpillCounts

    constructor ()
      ensures counts == SpillCounts(0, 0, 0)
    {
      counts := SpillCounts(0, 0, 0);
    }
  }

  /** The listener attached to each spillable collection of a closure. */
  class SpillListener {
    const counters: TaskCounters

    constructor (counters: TaskCounters)
      ensures this.counters == counters
    {
      this.counters := counters;
    }

    /** A collection starts writing a spill of spillSize tuples. */
    method NotifyWriteSpillBegin(spillSize: nat)
      modifies counters
      ensures counters.counts == Notify(old(counters.counts), WriteSpillBegin(spillSize))
    {
      counters.counts := counters.counts.(spillsWritten := counters.counts.spillsWritten + 1);
      counters.counts := counters.counts.(tuplesSpilled := counters.counts.tuplesSpilled + spillSize);
    }

    /** A collection starts reading a spill back. */
    method NotifyReadSpillBegin()
      modifies counters
      ensures counters.counts == Notify(old(counters.counts), ReadSpillBegin)
    {
      counters.counts := counters.counts.(spillsRead := counters.counts.spillsRead + 1);
    }
  }

  class HadoopCoGroupClosure {
    const numSelfJoins: nat
    /** The number of join inputs (joinFields.length). */
    const numPipes: nat
    /** The all-null tuple of the grouping fields' arity. */
    const emptyTuple: Tuple
    const counters: TaskCounters
    /** The distinct collections. */
    const buffers: array<seq<Tuple>>
    /** collections[pos] is buffers[slots[pos]]; slots.Length is collections.length. */
    const slots: array<nat>
    /**
     * The iterator the pass-through collection at position 0 holds when there are no
     * self-joins; null once that collection is cleared. buffers[0] is unused then.
     */
    var passThrough: PassThroughIterator?

    ghost function Footprint(): set<object>
      reads this`passThrough
    {
      {buffers, slots} + (if passThrough == null then {} else {passThrough, passThrough.values})
    }

    ghost predicate Valid()
      reads this`passThrough, Footprint()
    {
      && (numSelfJoins != 0 ==> buffers.Length == 1 && slots.Length == numSelfJoins + 1 && passThrough == null)
      && (numSelfJoins == 0 ==> numPipes >= 1 && buffers.Length == numPipes && slots.Length == numPipes && buffers[0] == [])
      && (forall pos :: 0 <= pos < slots.Length ==> slots[pos] == if numSelfJoins != 0 then 0 else pos)
      && (passThrough != null ==> passThrough.Valid())
    }

    /** The tuples an iterator over position pos yields. */
    function Contents(pos: nat): seq<Tuple>
      reads this`passThrough, Footprint()
      requires Valid() && pos < slots.Length
    {
      if numSelfJoins == 0 && pos == 0 then (if passThrough == null then [] else passThrough.Remaining())
      else buffers[slots[pos]]
    }

    constructor (numSelfJoins: nat, numPipes: nat, groupArity: nat, counters: TaskCounters)
      requires numPipes >= 1
      ensures Valid() && fresh(buffers) && fresh(slots)
      ensures this.numSelfJoins == numSelfJoins && this.numPipes == numPipes && this.counters == counters
      ensures emptyTuple == Nulls(groupArity) && passThrough == null
      ensures Size() == Width(numSelfJoins, numPipes)
      ensures forall pos :: 0 <= pos < Size() ==> Contents(pos) == []
    {
      this.numSelfJoins := numSelfJoins;
      this.numPipes := numPipes;
      this.counters := counters;
      emptyTuple := Nulls(groupArity);
      var b, s := InitLists(numSelfJoins, numPipes);
      buffers, slots := b, s;
      passThrough := null;
    }

    /**
     * With self-joins one collection shared by all numSelfJoins + 1 positions; without, the
     * pass-through collection at position 0 and one collection of its own for each other input.
     */
    static method InitLists(numSelfJoins: nat, numPipes: nat) returns (buffers: array<seq<Tuple>>, slots: array<nat>)
      requires numPipes >= 1
      ensures fresh(buffers) && fresh(slots)
      ensures numSelfJoins != 0 ==> buffers.Length == 1 && slots.Length == numSelfJoins + 1
      ensures numSelfJoins == 0 ==> buffers.Length == numPipes && slots.Length == numPipes
      ensures forall pos :: 0 <= pos < slots.Length ==> slots[pos] == if numSelfJoins != 0 then 0 else pos
      ensures forall i :: 0 <= i < buffers.Length ==> buffers[i] == []
    {
      if numSelfJoins != 0 {
        buffers := new seq<Tuple>[1];
        slots := new nat[numSelfJoins + 1];
        buffers[0] := [];
        slots[0] := 0;
        for i := 1 to numSelfJoins + 1
          invariant buffers[0] == []
          invariant forall j :: 0 <= j < i ==> slots[j] == 0
        {
          slots[i] := 0;
        }
      } else {
        buffers := new seq<Tuple>[numPipes];
        slots := new nat[numPipes];
        buffers[0] := [];
        slots[0] := 0;
        for i := 1 to numPipes
          invariant forall j :: 0 <= j < i ==> buffers[j] == [] && slots[j] == j
        {
          buffers[i] := [];
          slots[i] := i;
        }
      }
    }

    /** A listener for a new spillable collection, reporting to the task's counters. */
    method CreateListener() returns (l: SpillListener)
      ensures fresh(l) && l.counters == counters
    {
      l := new SpillListener(counters);
    }

    /** size(): self-joins give numSelfJoins + 1 positions, otherwise one per join input. */
    function Size(): (n: nat)
      reads this`passThrough, Footprint()
      requires Valid()
      ensures n == Width(numSelfJoins, numPipes)
    {
      slots.Length
    }

    /** getIterator(pos): the tuples of position pos, or the error for a position out of range. */
    function GetIterator(pos: int): (r: Result<seq<Tuple>, ClosureError>)
      reads this`passThrough, Footprint()
      requires Valid()
      ensures r.Failure? <==> pos < 0 || pos >= Size()
      ensures r.Failure? ==> r.error == InvalidGroupPosition(pos)
      ensures r.Success? ==> r.value == Contents(pos)
    {
      if pos < 0 || pos >= slots.Length then Failure(InvalidGroupPosition(pos))
      else Success(Contents(pos))
    }

    /**
     * isEmpty(pos): whether position pos has no tuple (left) to yield; the collections array is
     * indexed without a bounds check, so a position out of range raises.
     */
    function IsEmpty(pos: int): (r: Result<bool, ClosureError>)
      reads this`passThrough, Footprint()
      requires Valid()
      ensures r.Failure? <==> pos < 0 || pos >= Size()
      ensures r.Failure? ==> r.error == PositionOutOfBounds(pos)
      ensures r.Success? ==> (r.value <==> Contents(pos) == [])
    {
      if pos < 0 || pos >= slots.Length then Failure(PositionOutOfBounds(pos))
      else Success(CollectionEmpty(pos))
    }

    /** collections[pos].isEmpty(): the collection at position pos has no tuple (left) to yield. */
    predicate CollectionEmpty(pos: nat)
      reads this`passThrough, Footprint()
      requires Valid() && pos < Size()
      ensures CollectionEmpty(pos) <==> Contents(pos) == []
    {
      if numSelfJoins == 0 && pos == 0 then passThrough == null || !passThrough.HasNext()
      else buffers[slots[pos]] == []
    }

    /** Emptiness of positions 0 .. n-1. */
    function Emptiness(n: nat): (e: seq<bool>)
      reads this`passThrough, Footprint()
      requires Valid() && n <= Size()
      ensures |e| == n
      ensures forall q :: 0 <= q < n ==> (e[q] <==> Contents(q) == [])
    {
      if n == 0 then [] else Emptiness(n - 1) + [CollectionEmpty(n - 1)]
    }

    lemma {:induction false} EmptinessIs(empties: seq<bool>)
      requires Valid() && |empties| <= Size()
      requires forall q :: 0 <= q < |empties| ==> empties[q] == CollectionEmpty(q)
      ensures Emptiness(|empties|) == empties
      decreases |empties|
    {
      if empties != [] {
        EmptinessIs(empties[..|empties| - 1]);
      }
    }

    /** With self-joins every position shows the one shared collection. */
    lemma SelfJoinAliasing(pos: nat, other: nat)
      requires Valid() && numSelfJoins != 0 && pos < Size() && other < Size()
      ensures Contents(pos) == Contents(other) && IsEmpty(pos) == IsEmpty(other)
    {
    }

    /** clearGroups: every collection is emptied; the pass-through collection drops its iterator. */
    method ClearGroups()
      requires Valid()
      modifies this`passThrough, buffers
      ensures Valid() && passThrough == null
      ensures forall pos :: 0 <= pos < Size() ==> Contents(pos) == []
    {
      for i := 0 to slots.Length
        invariant Valid()
        invariant forall j :: 0 <= j < i ==> buffers[slots[j]] == []
        invariant numSelfJoins == 0 && i > 0 ==> passThrough == null
      {
        if numSelfJoins == 0 && i == 0 {
          passThrough := null;
        }
        buffers[slots[i]] := [];
      }
    }

    /**
     * build (run by reset for each grouping): clears every collection, then drains the input,
     * appending each tuple to the collection of its position, until, without self-joins, the
     * first tuple of position 0 arrives: position 0 then streams that tuple and the rest of the input.
     */
    method Build(values: InputIterator)
      requires Valid() && values.Valid()
      requires Accepted(numSelfJoins, numPipes, values.Rest())
      modifies this`passThrough, buffers, values
      ensures Valid() && values.Valid()
      ensures passThrough == null ==> values.Rest() == []
      ensures forall pos :: 0 <= pos < Size() ==> Contents(pos) == Built(numSelfJoins, old(values.Rest()), pos)
      ensures passThrough != null ==> fresh(passThrough) && passThrough.values == values
    {
      ClearGroups();
      NothingFiled(values.Rest());
      Drain(values);
    }

    /**
     * The loop of build, once every collection is cleared: files each tuple under its position
     * until the input runs out or, without self-joins, position 0 takes over the rest.
     */
    method Drain(values: InputIterator)
      requires Valid() && values.Valid() && passThrough == null
      requires Accepted(numSelfJoins, numPipes, values.Rest()) && Filed(values.Rest(), 0)
      modifies this`passThrough, buffers, values
      ensures Valid() && values.Valid()
      ensures passThrough == null ==> values.Rest() == []
      ensures forall pos :: 0 <= pos < Size() ==> Contents(pos) == Built(numSelfJoins, old(values.Rest()), pos)
      ensures passThrough != null ==> fresh(passThrough) && passThrough.values == values
    {
      ghost var items := values.Rest();
      ghost var consumed := 0;
      while values.HasNext()
        invariant values.Valid() && Valid() && passThrough == null
        invariant 0 <= consumed <= |items| && values.Rest() == items[consumed..]
        invariant numSelfJoins == 0 ==> consumed <= FirstLhs(items)
        invariant Filed(items, consumed)
        decreases |values.Rest()|
      {
        var streamed := FileNext(values, items, consumed);
        consumed := consumed + 1;
        if streamed {
          break;
        }
      }
      if passThrough == null {
        AllFiled(items, consumed);
      }
    }

    /**
     * One turn of build's loop over items[c]: without self-joins an index-0 tuple hands the
     * rest of the input to position 0 (streamed); any other tuple is filed under its position.
     */
    method FileNext(values: InputIterator, ghost items: seq<IndexTuple>, ghost c: nat) returns (streamed: bool)
      requires Valid() && values.Valid() && passThrough == null && Accepted(numSelfJoins, numPipes, items)
      requires c < |items| && values.Rest() == items[c..] && Filed(items, c)
      requires numSelfJoins == 0 ==> c <= FirstLhs(items)
      modifies this`passThrough, buffers, values
      ensures Valid() && values.Valid() && values.Rest() == items[c + 1..]
      ensures streamed ==> fresh(passThrough) && passThrough.values == values
      ensures streamed ==> forall pos :: 0 <= pos < Size() ==> Contents(pos) == Built(numSelfJoins, items, pos)
      ensures !streamed ==> passThrough == null && Filed(items, c + 1)
      ensures !streamed && numSelfJoins == 0 ==> c + 1 <= FirstLhs(items)
    {
      var current := values.Next();
      if numSelfJoins == 0 && current.index == 0 {
        StreamRest(current, values, items, c);
        return true;
      }
      Add(current, items, c);
      return false;
    }

    /** Once every collection is cleared, nothing of items has been filed. */
    lemma NothingFiled(items: seq<IndexTuple>)
      requires Valid() && passThrough == null
      requires forall pos :: 0 <= pos < Size() ==> Contents(pos) == []
      ensures Filed(items, 0)
    {
      assert items[..0] == [] && ValueTuples([]) == [];
      assert numSelfJoins != 0 ==> buffers[0] == Contents(0);
      assert numSelfJoins == 0 ==> forall p :: 1 <= p < numPipes ==> buffers[p] == Contents(p);
    }

    /** The input ran out before any tuple of position 0: each position holds what Built says. */
    lemma AllFiled(items: seq<IndexTuple>, consumed: nat)
      requires Valid() && passThrough == null && consumed == |items| && Filed(items, consumed)
      requires numSelfJoins == 0 ==> consumed <= FirstLhs(items)
      ensures forall pos :: 0 <= pos < Size() ==> Contents(pos) == Built(numSelfJoins, items, pos)
    {
      assert items[..consumed] == items;
      forall pos | 0 <= pos < Size()
        ensures Contents(pos) == Built(numSelfJoins, items, pos)
      {
        if numSelfJoins == 0 && pos == 0 {
          assert items[FirstLhs(items)..] == [];
        }
      }
    }

    /**
     * The first tuple of position 0 (items[c]) has arrived without self-joins: position 0 now
     * streams it and the rest of the input, and build stops reading.
     */
    method StreamRest(current: IndexTuple, values: InputIterator, ghost items: seq<IndexTuple>, ghost c: nat)
      requires Valid() && values.Valid() && passThrough == null && numSelfJoins == 0
      requires c < |items| && items[c] == current && current.index == 0 && c <= FirstLhs(items)
      requires values.Rest() == items[c + 1..] && Filed(items, c)
      modifies this`passThrough
      ensures Valid() && fresh(passThrough) && passThrough.values == values
      ensures forall pos :: 0 <= pos < Size() ==> Contents(pos) == Built(numSelfJoins, items, pos)
    {
      passThrough := new PassThroughIterator(current, values);
      assert FirstLhs(items) == c;
      assert passThrough.Remaining() == ValueTuples(items[c..]);
    }

    /** Collections 1.. (or the one shared collection) hold what build filed from items[..consumed]. */
    ghost predicate Filed(items: seq<IndexTuple>, consumed: nat)
      reads buffers
      requires consumed <= |items|
    {
      && (numSelfJoins != 0 ==> buffers.Length == 1 && buffers[0] == ValueTuples(items[..consumed]))
      && (numSelfJoins == 0 ==> buffers.Length == numPipes && forall p :: 1 <= p < numPipes ==> buffers[p] == Tagged(items[..consumed], p))
    }

    /** collection.add: items[c] goes to the collection of its position. */
    method Add(current: IndexTuple, ghost items: seq<IndexTuple>, ghost c: nat)
      requires Valid() && passThrough == null && c < |items| && Filed(items, c) && items[c] == current
      requires 0 <= current.index < Size() && (numSelfJoins == 0 ==> current.index != 0)
      modifies buffers
      ensures Valid() && Filed(items, c + 1)
    {
      var pos := current.index;
      forall p | 1 <= p < numPipes
        ensures Tagged(items[..c + 1], p) == Tagged(items[..c], p) + if pos == p then [items[c].tuple] else []
      {
        TaggedSnoc(items, c, p);
      }
      assert ValueTuples(items[..c + 1]) == ValueTuples(items[..c]) + [items[c].tuple];
      buffers[slots[pos]] := buffers[slots[pos]] + [current.tuple];
    }

    /**
     * getGroupTuple(keys): the concatenation, position by position, of the keys for a
     * non-empty position and the all-null tuple for an empty one.
     */
    method GetGroupTuple(keys: Tuple) returns (r: Tuple)
      requires Valid()
      ensures r == GroupTuple(Emptiness(Size()), keys, emptyTuple)
    {
      var joined := [];
      ghost var empties: seq<bool> := [];
      for pos := 0 to slots.Length
        invariant |empties| == pos
        invariant forall q :: 0 <= q < pos ==> empties[q] == CollectionEmpty(q)
        invariant joined == GroupTuple(empties, keys, emptyTuple)
      {
        var empty := CollectionEmpty(pos);
        GroupTupleSnoc(empties, empty, keys, emptyTuple);
        joined := joined + if empty then emptyTuple else keys;
        empties := empties + [empty];
      }
      EmptinessIs(empties);
      r := joined;
    }
  }
}
