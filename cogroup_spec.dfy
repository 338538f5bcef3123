/**
 * What the co-group closure computes for one grouping, stated over values: which tuples each
 * position holds once build has drained the grouping's index-tagged tuples, the joined group
 * tuple, and the spill counters the closure's listeners maintain.
 */
module CoGroupSpec {
  import opened Tuples

  /** A value tuple tagged with the position of the join input it came from. */
  datatype IndexTuple = IndexTuple(index: int, tuple: Tuple)

  /** The value tuples of a run of index tuples, in order. */
  function ValueTuples(items: seq<IndexTuple>): seq<Tuple>
  {
    seq(|items|, k requires 0 <= k < |items| => items[k].tuple)
  }

  lemma ValueTuplesCons(items: seq<IndexTuple>)
    requires items != []
    ensures ValueTuples(items) == [items[0].tuple] + ValueTuples(items[1..])
  {
  }

  /** Reference definition: the value tuples tagged with position p, in arrival order. */
  function Tagged(items: seq<IndexTuple>, p: int): (r: seq<Tuple>)
    ensures |r| <= |items|
  {
    if items == [] then []
    else (if items[0].index == p then [items[0].tuple] else []) + Tagged(items[1..], p)
  }

  /** The position of the first tuple tagged 0 (the left-most input), or |items| if there is none. */
  function FirstLhs(items: seq<IndexTuple>): (k: nat)
    ensures k <= |items|
    ensures forall j :: 0 <= j < k ==> items[j].index != 0
    ensures k < |items| ==> items[k].index == 0
  {
    if items == [] || items[0].index == 0 then 0 else 1 + FirstLhs(items[1..])
  }

  /**
   * The ordering the shuffle guarantees within a grouping: once a tuple of the left-most input
   * arrives, every later tuple is from the left-most input too.
   */
  predicate LhsIsSuffix(items: seq<IndexTuple>)
  {
    forall i, j :: 0 <= i < j < |items| && items[i].index == 0 ==> items[j].index == 0
  }

  /** The number of positions a closure exposes. */
  function Width(numSelfJoins: nat, numPipes: nat): nat
  {
    if numSelfJoins != 0 then numSelfJoins + 1 else numPipes
  }

  /** The tuples build files into a collection: all of them with self-joins, else those before the first left-most one. */
  function FiledCount(numSelfJoins: nat, items: seq<IndexTuple>): nat
  {
    if numSelfJoins != 0 then |items| else FirstLhs(items)
  }

  /** Every tuple build files into a collection names a position the closure has. */
  predicate Accepted(numSelfJoins: nat, numPipes: nat, items: seq<IndexTuple>)
  {
    forall j :: 0 <= j < FiledCount(numSelfJoins, items) ==> 0 <= items[j].index < Width(numSelfJoins, numPipes)
  }

  /**
   * What position p holds once build has drained items. With self-joins every position shows
   * the one shared collection holding every tuple. Without, position 0 is the pass-through
   * iterator over the first left-most tuple and everything after it, and position p > 0 holds
   * the tuples tagged p that came before it.
   */
  function Built(numSelfJoins: nat, items: seq<IndexTuple>, p: nat): (r: seq<Tuple>)
    ensures numSelfJoins != 0 ==> |r| == |items|
    ensures numSelfJoins == 0 && p == 0 ==> |r| == |items| - FirstLhs(items)
    ensures numSelfJoins == 0 && p != 0 ==> |r| <= FirstLhs(items)
  {
    if numSelfJoins != 0 then ValueTuples(items)
    else if p == 0 then ValueTuples(items[FirstLhs(items)..])
    else Tagged(items[..FirstLhs(items)], p)
  }

  /**
   * What build leaves, element by element: with self-joins every value tuple in input order;
   * without, position 0 the value tuples from the first index-0 one on, in order, and any other
   * position only tuples of input tagged with it that came before that one.
   */
  lemma BuiltContents(numSelfJoins: nat, items: seq<IndexTuple>, p: nat)
    ensures var r := Built(numSelfJoins, items, p);
            && (numSelfJoins != 0 ==> forall j :: 0 <= j < |r| ==> r[j] == items[j].tuple)
            && (numSelfJoins == 0 && p == 0 ==> forall j :: 0 <= j < |r| ==> r[j] == items[FirstLhs(items) + j].tuple)
            && (numSelfJoins == 0 && p != 0 ==>
                  forall t :: t in r ==> exists m :: 0 <= m < FirstLhs(items) && items[m].index == p && items[m].tuple == t)
  {
    if numSelfJoins == 0 && p != 0 {
      TaggedFrom(items[..FirstLhs(items)], p);
    }
  }

  /** Every tuple tagged p is the value tuple of an input tagged p. */
  lemma {:induction false} TaggedFrom(items: seq<IndexTuple>, p: int)
    ensures forall t :: t in Tagged(items, p) ==> exists m :: 0 <= m < |items| && items[m].index == p && items[m].tuple == t
    decreases |items|
  {
    if items != [] {
      TaggedFrom(items[1..], p);
      forall t | t in Tagged(items, p)
        ensures exists m :: 0 <= m < |items| && items[m].index == p && items[m].tuple == t
      {
        if t in Tagged(items[1..], p) {
          var m :| 0 <= m < |items[1..]| && items[1..][m].index == p && items[1..][m].tuple == t;
          assert items[m + 1] == items[1..][m];
        } else {
          assert items[0].index == p && items[0].tuple == t;
        }
      }
    }
  }

  lemma {:induction false} TaggedAppend(a: seq<IndexTuple>, b: seq<IndexTuple>, p: int)
    ensures Tagged(a + b, p) == Tagged(a, p) + Tagged(b, p)
    decreases |a|
  {
    if a == [] {
      assert a + b == b;
    } else {
      var head := if a[0].index == p then [a[0].tuple] else [];
      assert (a + b)[0] == a[0] && (a + b)[1..] == a[1..] + b;
      assert Tagged(a + b, p) == head + Tagged(a[1..] + b, p);
      TaggedAppend(a[1..], b, p);
      assert Tagged(a, p) == head + Tagged(a[1..], p);
    }
  }

  /** Reading one more tuple adds it to the tuples tagged with its own position only. */
  lemma TaggedSnoc(items: seq<IndexTuple>, c: nat, p: int)
    requires c < |items|
    ensures Tagged(items[..c + 1], p) == Tagged(items[..c], p) + if items[c].index == p then [items[c].tuple] else []
  {
    assert items[..c + 1] == items[..c] + [items[c]];
    TaggedAppend(items[..c], [items[c]], p);
    assert [items[c]][1..] == [];
  }

  /** In a run tagged only q, the tuples tagged p are all of them when p == q and none otherwise. */
  lemma {:induction false} TaggedUniform(items: seq<IndexTuple>, q: int, p: int)
    requires forall j :: 0 <= j < |items| ==> items[j].index == q
    ensures Tagged(items, p) == if p == q then ValueTuples(items) else []
    decreases |items|
  {
    if items != [] {
      TaggedUniform(items[1..], q, p);
      assert ValueTuples(items) == [items[0].tuple] + ValueTuples(items[1..]);
    }
  }

  /** In a run with no tuple tagged 0, none is tagged 0. */
  lemma {:induction false} TaggedAbsent(items: seq<IndexTuple>, p: int)
    requires forall j :: 0 <= j < |items| ==> items[j].index != p
    ensures Tagged(items, p) == []
    decreases |items|
  {
    if items != [] {
      TaggedAbsent(items[1..], p);
    }
  }

  /**
   * Without self-joins, given the shuffle's ordering, every position holds exactly the tuples
   * tagged with it, in arrival order, although position 0 never copies its tuples.
   */
  lemma BuiltIsTagged(items: seq<IndexTuple>, p: nat)
    requires LhsIsSuffix(items)
    ensures Built(0, items, p) == Tagged(items, p)
  {
    var k := FirstLhs(items);
    var before, after := items[..k], items[k..];
    assert items == before + after;
    TaggedAppend(before, after, p);
    forall j | 0 <= j < |after|
      ensures after[j].index == 0
    {
      assert items[k].index == 0 && after[j] == items[k + j];
    }
    TaggedUniform(after, 0, p);
    if p == 0 {
      TaggedAbsent(before, 0);
    }
  }

  /** With self-joins every position shows the same tuples: all of them, in arrival order. */
  lemma SelfJoinPositionsAgree(numSelfJoins: nat, items: seq<IndexTuple>, p: nat, q: nat)
    requires numSelfJoins != 0
    ensures Built(numSelfJoins, items, p) == Built(numSelfJoins, items, q)
    ensures |Built(numSelfJoins, items, p)| == |items|
    ensures forall j :: 0 <= j < |items| ==> Built(numSelfJoins, items, p)[j] == items[j].tuple
  {
  }

  /**
   * The group tuple for a closure whose positions are empty or not as `empties` says: position
   * by position, `empty` for an empty position and `keys` for any other.
   */
  function GroupTuple(empties: seq<bool>, keys: Tuple, empty: Tuple): (r: Tuple)
    ensures |keys| == |empty| ==> |r| == |empties| * |keys|
  {
    if empties == [] then []
    else
      MulDistributes(|empties| - 1, 1, |keys|);
      GroupTuple(empties[..|empties| - 1], keys, empty) + (if empties[|empties| - 1] then empty else keys)
  }

  /** One more position adds its slot at the end. */
  lemma GroupTupleSnoc(empties: seq<bool>, last: bool, keys: Tuple, empty: Tuple)
    ensures GroupTuple(empties + [last], keys, empty) == GroupTuple(empties, keys, empty) + if last then empty else keys
  {
    assert (empties + [last])[..|empties|] == empties;
  }

  lemma {:induction false} MulDistributes(x: nat, y: nat, a: nat)
    ensures (x + y) * a == x * a + y * a
  {
  }

  /** A slot that starts before the last one ends within it. */
  lemma {:induction false} SlotFits(p: nat, n: nat, a: nat)
    requires p < n
    ensures p * a + a <= n * a
  {
    MulDistributes(p, 1, a);
    MulDistributes(p + 1, n - (p + 1), a);
  }

  /** With keys of the placeholder's arity, the group tuple has one slot of that arity per position. */
  lemma {:induction false} GroupTupleLength(empties: seq<bool>, keys: Tuple, arity: nat)
    requires |keys| == arity
    ensures |GroupTuple(empties, keys, Nulls(arity))| == |empties| * arity
    decreases |empties|
  {
    if empties != [] {
      GroupTupleLength(empties[..|empties| - 1], keys, arity);
      MulDistributes(|empties| - 1, 1, arity);
    }
  }

  /**
   * When the keys have the arity of the null placeholder, slot p of the group tuple (the
   * `arity` values from p * arity on) holds the keys if position p is non-empty and nulls if it is empty.
   */
  lemma {:induction false} GroupTupleAt(empties: seq<bool>, keys: Tuple, arity: nat, p: nat, k: nat)
    requires |keys| == arity && p < |empties| && k < arity
    ensures p * arity + k < |GroupTuple(empties, keys, Nulls(arity))|
    ensures GroupTuple(empties, keys, Nulls(arity))[p * arity + k] == if empties[p] then Null else keys[k]
    decreases |empties|
  {
    var n := |empties|;
    var init := empties[..n - 1];
    var h := GroupTuple(init, keys, Nulls(arity));
    var slot := if empties[n - 1] then Nulls(arity) else keys;
    assert GroupTuple(empties, keys, Nulls(arity)) == h + slot;
    GroupTupleLength(init, keys, arity);
    var offset := p * arity;
    if p < n - 1 {
      SlotFits(p, n - 1, arity);
      GroupTupleAt(init, keys, arity, p, k);
      assert init[p] == empties[p];
    } else {
      assert offset == |h|;
    }
  }

  /** The three counters the spill listeners increment. */
  datatype SpillCounts = SpillCounts(spillsWritten: nat, spillsRead: nat, tuplesSpilled: nat)

  /** A notification from a spillable collection. */
  datatype SpillEvent = WriteSpillBegin(spillSize: nat) | ReadSpillBegin

  /** The counters after one notification. */
  function Notify(c: SpillCounts, e: SpillEvent): (r: SpillCounts)
    ensures r.spillsWritten + r.spillsRead == c.spillsWritten + c.spillsRead + 1
    ensures r.spillsWritten >= c.spillsWritten && r.spillsRead >= c.spillsRead && r.tuplesSpilled >= c.tuplesSpilled
    ensures e.WriteSpillBegin? <==> r.spillsWritten > c.spillsWritten
  {
    match e
    case WriteSpillBegin(n) => c.(spillsWritten := c.spillsWritten + 1, tuplesSpilled := c.tuplesSpilled + n)
    case ReadSpillBegin => c.(spillsRead := c.spillsRead + 1)
  }

  /** The counters after a run of notifications, in order. */
  function Tally(c: SpillCounts, events: seq<SpillEvent>): SpillCounts
    decreases |events|
  {
    if events == [] then c else Tally(Notify(c, events[0]), events[1..])
  }

  /** The tuples the write notifications of a run report as spilled. */
  function SpilledTuples(events: seq<SpillEvent>): nat
  {
    if events == [] then 0
    else (if events[0].WriteSpillBegin? then events[0].spillSize else 0) + SpilledTuples(events[1..])
  }

  /**
   * Counters only grow: every notification adds one to exactly one of spills-written and
   * spills-read, and tuples-spilled grows by the sizes the write notifications report.
   */
  lemma {:induction false} TallyCounts(c: SpillCounts, events: seq<SpillEvent>)
    ensures var t := Tally(c, events);
            && t.spillsWritten >= c.spillsWritten && t.spillsRead >= c.spillsRead && t.tuplesSpilled >= c.tuplesSpilled
            && t.spillsWritten + t.spillsRead == c.spillsWritten + c.spillsRead + |events|
            && t.tuplesSpilled == c.tuplesSpilled + SpilledTuples(events)
    decreases |events|
  {
    if events != [] {
      TallyCounts(Notify(c, events[0]), events[1..]);
    }
  }

  /** Tallying a run in two parts gives the same counters as tallying it at once. */
  lemma {:induction false} TallyAppend(c: SpillCounts, a: seq<SpillEvent>, b: seq<SpillEvent>)
    ensures Tally(c, a + b) == Tally(Tally(c, a), b)
    decreases |a|
  {
    if a == [] {
      assert a + b == b;
    } else {
      assert (a + b)[1..] == a[1..] + b;
      TallyAppend(Notify(c, a[0]), a[1..], b);
    }
  }
}
