// The segmented log as raft's own log store: `logStore` in internal/log/distributed.go.
module RaftStore {
  import opened Bytes
  import opened Wrappers
  import opened Codec
  import opened LogSpec
  import opened LogTheorems
  import opened Restoring

  /** raft.Log; its type is a byte. */
  datatype Entry = Entry(index: uint64, term: uint64, kind: byte, data: Payload)

  function ToRecord(e: Entry): Record {
    Record(e.data, 0, e.term, e.kind)
  }

  function FromRecord(r: Record): Entry {
    Entry(r.offset, r.term, r.kind % 256, r.value)
  }

  function ToRecords(batch: seq<Entry>): (rs: seq<Record>)
    ensures |rs| == |batch| && forall k :: 0 <= k < |batch| ==> rs[k] == ToRecord(batch[k])
  {
    seq(|batch|, k requires 0 <= k < |batch| => ToRecord(batch[k]))
  }

  function GetLog(st: LogState, index: nat, strict: bool): Result<Entry> {
    match Read(st, index, strict)
    case Ok(r) => Result<Entry>.Ok(FromRecord(r))
    case Err(e) => Err(e)
  }

  ghost function StoreLogs(st: LogState, batch: seq<Entry>): LogState
    requires Good(st) && Next(st) + |batch| < TWO_64
  {
    AppendAll(st, ToRecords(batch))
  }

  /** DeleteRange takes its lower bound but never looks at it. */
  function DeleteRange(st: LogState, min: uint64, max: uint64): LogState {
    Truncate(st, max)
  }

  /** The store holds a suffix of the entries 1, 2, ... stored so far. */
  ghost predicate HoldsEntries(st: LogState, entries: seq<Entry>) {
    && Good(st) && 1 <= Lowest(st) && Next(st) == 1 + |entries|
    && (forall k :: 0 <= k < |entries| ==> entries[k].index == k + 1)
    && forall k :: Lowest(st) - 1 <= k < |entries| && k - (Lowest(st) - 1) < |Contents(st)| ==>
         Contents(st)[k - (Lowest(st) - 1)] == Stamp(ToRecord(entries[k]), k + 1)
  }

  datatype Op = Store(batch: seq<Entry>) | Delete(min: uint64, max: uint64)

  /** Batches go on where the store ends; deletion compacts a proper prefix. */
  predicate Permitted(st: LogState, op: Op) {
    && st.segments != []
    && match op
       case Store(batch) =>
         && Next(st) + |batch| < TWO_64
         && forall k :: 0 <= k < |batch| ==> batch[k].index == Highest(st) + 1 + k
       case Delete(_, max) => After(max) < Next(st)
  }

  /** What raft permits, in a state where storing a batch is defined. */
  ghost predicate Enabled(st: LogState, op: Op) {
    Good(st) && Permitted(st, op)
  }

  /** The second condition excludes nothing: every reachable state meets it. */
  lemma {:induction false} GuardsHold(st: LogState, entries: seq<Entry>, op: Op)
    requires HoldsEntries(st, entries)
    ensures Enabled(st, op) <==> Permitted(st, op)
  {
    hide Good, Contents;
  }

  ghost function Do(st: LogState, op: Op): LogState
    requires Enabled(st, op)
  {
    match op
    case Store(batch) => StoreLogs(st, batch)
    case Delete(min, max) => DeleteRange(st, min, max)
  }

  function Stored(entries: seq<Entry>, op: Op): seq<Entry> {
    if op.Store? then entries + op.batch else entries
  }

  lemma {:induction false} StoreKeeps(st: LogState, entries: seq<Entry>, batch: seq<Entry>)
    requires HoldsEntries(st, entries) && Enabled(st, Store(batch))
    ensures HoldsEntries(StoreLogs(st, batch), entries + batch)
  {
    hide Good, Contents, AppendAll;
    AppendAllAdds(st, ToRecords(batch));
    ContentsContiguous(st);
  }

  lemma {:induction false} DeleteKeeps(st: LogState, entries: seq<Entry>, min: uint64, max: uint64)
    requires HoldsEntries(st, entries) && Enabled(st, Delete(min, max))
    ensures HoldsEntries(DeleteRange(st, min, max), entries)
  {
    hide Good, Contents, Truncate;
    var k := TruncateKeepsSuffix(st, max);
    var st' := Truncate(st, max);
    ContentsContiguous(st);
    ContentsContiguous(st');
    forall i | Lowest(st') - 1 <= i < |entries|
      ensures Contents(st')[i - (Lowest(st') - 1)] == Stamp(ToRecord(entries[i]), i + 1)
    {
      assert Contents(st)[i - (Lowest(st) - 1)] == Stamp(ToRecord(entries[i]), i + 1);
    }
  }

  /** The store still has an entry with this index. */
  predicate Held(st: LogState, index: nat) {
    st.segments != [] && Lowest(st) <= index < Next(st)
  }

  /** When DeleteRange(min, max) removes exactly the stored indices from min to max.
      Reaching the last index, it removes all: right if min covers the first, or
      nothing was stored.  At the largest max it removes none, as max + 1 wraps:
      right only if none is from min on.  Ending below the first, it removes none,
      as it should.  Otherwise it removes the segments that end by max: right if
      min covers the first index and a segment ends at max, or if nothing was asked
      for and no segment ends by max. */
  predicate DeletesExactly(st: LogState, min: uint64, max: uint64)
    requires st.segments != []
  {
    if After(max) >= Next(st) then min <= Lowest(st) || Lowest(st) == Next(st)
    else if max == TWO_64 - 1 then min >= Next(st) || Lowest(st) == Next(st)
    else if max < Lowest(st) then true
    else if min > max then st.segments[0].Next() > max + 1
    else min <= Lowest(st) && Boundary(st, max + 1)
  }

  predicate RightAt(st: LogState, min: uint64, max: uint64, index: nat) {
    Held(DeleteRange(st, min, max), index) <==> Held(st, index) && !(min <= index <= max)
  }

  lemma {:induction false} DeleteRangeExact(st: LogState, min: uint64, max: uint64)
    requires Good(st)
    ensures st.segments != []
    ensures DeletesExactly(st, min, max) <==> forall index :: RightAt(st, min, max, index)
  {
    hide Good, Keep, Boundary;
    var k := KeptFrom(st, max);
    NextNotBelow(st);
    if After(max) >= Next(st) {
      assert !DeletesExactly(st, min, max) ==> !RightAt(st, min, max, Lowest(st));
    } else {
      KeptBase(st, After(max), k);
      var l := st.segments[k].base;
      assert Lowest(DeleteRange(st, min, max)) == l && Next(DeleteRange(st, min, max)) == Next(st);
      if max == TWO_64 - 1 {
        assert !DeletesExactly(st, min, max) ==> !RightAt(st, min, max, Next(st) - 1);
      } else {
        assert l > Lowest(st) && (l <= max || min > max || min > Lowest(st)) ==>
                 !RightAt(st, min, max, Lowest(st)) || !RightAt(st, min, max, max);
        assert l == Lowest(st) <= max && min <= max ==> !RightAt(st, min, max, max);
      }
    }
  }

  /** The largest index deletes nothing that is stored. */
  lemma {:induction false} DeleteToTheEnd(st: LogState, min: uint64, index: nat)
    requires Good(st)
    ensures Held(DeleteRange(st, min, TWO_64 - 1), index) <==> Held(st, index)
  {
    hide Good, Keep;
    var k := KeptFrom(st, TWO_64 - 1);
    NextNotBelow(st);
    if 0 < Next(st) {
      KeptBase(st, 0, k);
    }
  }

  lemma {:induction false} NextNotBelow(st: LogState)
    requires Good(st)
    ensures st.segments != [] && Lowest(st) <= Next(st) < TWO_64
  {
    ContentsContiguous(st);
  }

  /** Where the kept segments start. */
  lemma {:induction false} KeptBase(st: LogState, end: nat, k: nat)
    requires Good(st) && end < Next(st) && k < |st.segments|
    requires forall j :: 0 <= j < |st.segments| ==> (st.segments[j].Next() <= end <==> j < k)
    ensures k == 0 <==> st.segments[0].Next() > end
    ensures k == 0 ==> st.segments[k].base == Lowest(st)
    ensures k > 0 ==> Lowest(st) < st.segments[k].base <= end
    ensures end <= Lowest(st) ==> k == 0
    ensures Lowest(st) < end ==> (st.segments[k].base == end <==> Boundary(st, end))
  {
    hide GoodSegment;
    var segs := st.segments;
    if k > 0 {
      Ordered(segs, 0, k);
      assert Follows(segs[k - 1], segs[k]);
    }
    if end <= Lowest(st) && |segs| > 1 {
      assert Follows(segs[0], segs[1]);
    }
    if Boundary(st, end) {
      var i :| 0 < i < |segs| && segs[i].base == end;
      assert Follows(segs[i - 1], segs[i]);
    }
  }

  /** GetLog on the strict Read returns every entry from FirstIndex to LastIndex
      with its own index, term, type and data; as written it misses exactly the
      base offsets of later segments. */
  lemma {:induction false} GetLogExact(st: LogState, entries: seq<Entry>, index: nat, strict: bool)
    requires HoldsEntries(st, entries)
    ensures Lowest(st) <= index <= Highest(st) && (strict || !Boundary(st, index)) ==>
              0 < index <= |entries| && GetLog(st, index, strict) == Ok(entries[index - 1])
    ensures !(Lowest(st) <= index <= Highest(st) && (strict || !Boundary(st, index))) ==>
              GetLog(st, index, strict) == Err(OffsetOutOfRange(index))
  {
    hide Good, Contents, Read, Boundary, Marshal;
    ReadStrict(st, index);
    ReadAsWritten(st, index);
    ContentsContiguous(st);
    if Lowest(st) <= index < Next(st) {
      MarshalSize(Contents(st)[index - Lowest(st)]);
    }
  }

  // ---------- whole runs

  ghost predicate Legal(st: LogState, ops: seq<Op>)
    decreases |ops|
  {
    ops == [] || (Enabled(st, ops[0]) && Legal(Do(st, ops[0]), ops[1..]))
  }

  ghost function Run(st: LogState, ops: seq<Op>): LogState
    requires Legal(st, ops)
    decreases |ops|
  {
    if ops == [] then st else Run(Do(st, ops[0]), ops[1..])
  }

  function AllStored(entries: seq<Entry>, ops: seq<Op>): seq<Entry>
    decreases |ops|
  {
    if ops == [] then entries else AllStored(Stored(entries, ops[0]), ops[1..])
  }

  lemma {:induction false} RunKeeps(st: LogState, entries: seq<Entry>, ops: seq<Op>)
    requires HoldsEntries(st, entries) && Legal(st, ops)
    ensures HoldsEntries(Run(st, ops), AllStored(entries, ops))
    decreases |ops|
  {
    hide HoldsEntries, StoreLogs, DeleteRange;
    if ops != [] {
      match ops[0] {
        case Store(batch) => StoreKeeps(st, entries, batch);
        case Delete(min, max) => DeleteKeeps(st, entries, min, max);
      }
      RunKeeps(Do(st, ops[0]), Stored(entries, ops[0]), ops[1..]);
    }
  }

  /** Every deletion of a run removes the segments that end by its upper bound, and
      none removes an index above all of these bounds. */
  lemma {:induction false} RunDeletes(st: LogState, entries: seq<Entry>, ops: seq<Op>)
    requires HoldsEntries(st, entries) && Legal(st, ops)
    ensures var end := Run(st, ops);
            && end.segments != [] && st.segments != [] && end.segments[0].Next() >= st.segments[0].Next()
            && (forall k :: 0 <= k < |ops| && ops[k].Delete? ==> end.segments[0].Next() > After(ops[k].max))
            && Next(st) <= Next(end)
            && (Lowest(end) == Lowest(st) ||
                exists k :: 0 <= k < |ops| && ops[k].Delete? && Lowest(end) <= After(ops[k].max))
    decreases |ops|
  {
    hide HoldsEntries, Legal, Run, Do, Enabled, StoreLogs, DeleteRange;
    if ops == [] {
      RunNothing(st);
      SomeSegment(st, entries);
    } else {
      RunOnce(st, ops);
      var st', rest := Do(st, ops[0]), ops[1..];
      StepDeletes(st, entries, ops[0]);
      match ops[0] {
        case Store(batch) => StoreKeeps(st, entries, batch);
        case Delete(min, max) => DeleteKeeps(st, entries, min, max);
      }
      DoIs(st, ops[0]);
      RunDeletes(st', Stored(entries, ops[0]), rest);
      forall k | 0 <= k < |ops| && ops[k].Delete?
        ensures Run(st, ops).segments[0].Next() > After(ops[k].max)
      {
        if k > 0 {
          assert ops[k] == rest[k - 1];
        }
      }
      var end := Run(st, ops);
      if Lowest(end) != Lowest(st') {
        var k :| 0 <= k < |rest| && rest[k].Delete? && Lowest(end) <= After(rest[k].max);
        assert ops[k + 1] == rest[k];
      } else if Lowest(st') != Lowest(st) {
        assert ops[0].Delete? && Lowest(end) <= After(ops[0].max);
      }
    }
  }

  lemma {:induction false} RunNothing(st: LogState)
    ensures Legal(st, []) && Run(st, []) == st
  {
  }

  lemma {:induction false} RunOnce(st: LogState, ops: seq<Op>)
    requires ops != [] && Legal(st, ops)
    ensures Enabled(st, ops[0]) && Legal(Do(st, ops[0]), ops[1..]) && Run(st, ops) == Run(Do(st, ops[0]), ops[1..])
  {
    hide Enabled, Do;
  }

  lemma {:induction false} DoIs(st: LogState, op: Op)
    requires Enabled(st, op)
    ensures op.Store? ==> Good(st) && Next(st) + |op.batch| < TWO_64 && Do(st, op) == StoreLogs(st, op.batch)
    ensures op.Delete? ==> Do(st, op) == DeleteRange(st, op.min, op.max)
  {
  }

  lemma {:induction false} SomeSegment(st: LogState, entries: seq<Entry>)
    requires HoldsEntries(st, entries)
    ensures st.segments != []
  {
  }

  lemma {:induction false} StepDeletes(st: LogState, entries: seq<Entry>, op: Op)
    requires HoldsEntries(st, entries) && Enabled(st, op)
    ensures var st' := Do(st, op);
            && st.segments != [] && st'.segments != [] && st'.segments[0].Next() >= st.segments[0].Next()
            && Next(st') == Next(st) + (if op.Store? then |op.batch| else 0)
            && (op.Store? ==> Lowest(st') == Lowest(st))
            && (op.Delete? ==> st'.segments[0].Next() > After(op.max))
            && (op.Delete? ==> Lowest(st') <= After(op.max) || Lowest(st') == Lowest(st))
  {
    hide Good, Contents, Truncate, AppendAll;
    match op {
      case Store(batch) =>
        AppendAllAdds(st, ToRecords(batch));
        AppendAllFirst(st, ToRecords(batch));
      case Delete(min, max) =>
        var k := TruncateKeepsSuffix(st, max);
        FirstNext(st, k);
    }
  }

  lemma {:induction false} FirstNext(st: LogState, k: nat)
    requires Good(st) && k < |st.segments|
    ensures st.segments[0].Next() <= st.segments[k].Next()
  {
    hide GoodSegment;
    if k > 0 {
      Ordered(st.segments, 0, k);
    }
  }

  /** Appends only make the first segment longer. */
  lemma {:induction false} AppendAllFirst(st: LogState, rs: seq<Record>)
    requires Good(st) && Next(st) + |rs| < TWO_64
    ensures AppendAll(st, rs).segments != [] && AppendAll(st, rs).segments[0].Next() >= st.segments[0].Next()
    decreases |rs|
  {
    hide Good, Append;
    if rs != [] {
      AppendAdds(st, rs[0]);
      RotatesExactly(st, rs[0]);
      AppendAllFirst(Append(st, rs[0]), rs[1..]);
    }
  }

  /** Raft index and log offset agree over every run from an empty store whose
      initial offset is 1, in every entry GetLog can read. */
  lemma {:induction false} IndexAgreement(limits: Limits, ops: seq<Op>, index: nat, strict: bool)
    requires GoodLimits(limits) && Legal(Fresh(limits, 1), ops)
    ensures var st, entries := Run(Fresh(limits, 1), ops), AllStored([], ops);
            && st.segments != [] && Highest(st) == |entries|
            && (GetLog(st, index, strict).Ok? <==>
                  Lowest(st) <= index <= Highest(st) && (strict || !Boundary(st, index)))
            && (GetLog(st, index, strict).Ok? ==>
                  0 < index <= |entries| && GetLog(st, index, strict).value == entries[index - 1])
  {
    hide GetLog, Boundary, Good, Contents, Legal, Run, AllStored;
    FreshGood(limits, 1);
    RunKeeps(Fresh(limits, 1), [], ops);
    GetLogExact(Run(Fresh(limits, 1), ops), AllStored([], ops), index, strict);
  }
}
