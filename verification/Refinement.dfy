// Over every run of its operations the segmented log gives the answers of the flat one.
module Refinement {
  import opened Bytes
  import opened Wrappers
  import opened Codec
  import opened Framing
  import opened LogSpec
  import opened LogTheorems
  import FlatLog

  datatype Op =
    | AppendOp(record: Record)
    | ReadOp(off: nat)
    | TruncateOp(lowest: uint64)
    | LowestOp
    | HighestOp

  datatype Output = Appended(off: nat) | Gave(result: Result<Record>) | Truncated | Offset(off: nat)

  /** No overflow, and truncation stops short of the last record. */
  predicate Enabled(st: LogState, op: Op) {
    && st.segments != []
    && match op
       case AppendOp(_) => Next(st) + 1 < TWO_64
       case TruncateOp(lowest) => After(lowest) < Next(st)
       case _ => true
  }

  function Do(st: LogState, op: Op, strict: bool): (LogState, Output)
    requires Enabled(st, op)
  {
    match op
    case AppendOp(r) => (Append(st, r), Appended(Next(st)))
    case ReadOp(off) => (st, Gave(Read(st, off, strict)))
    case TruncateOp(lowest) => (Truncate(st, lowest), Truncated)
    case LowestOp => (st, Offset(Lowest(st)))
    case HighestOp => (st, Offset(Highest(st)))
  }

  /** The flat log only ever grows; a truncated log answers from its suffix. */
  function DoFlat(flat: seq<Record>, op: Op): seq<Record>
    requires |flat| < TWO_64
  {
    if op.AppendOp? then FlatLog.Append(flat, op.record) else flat
  }

  /** The segmented log, started at `st.initial`, holds a suffix of the flat log. */
  ghost predicate Represents(st: LogState, flat: seq<Record>) {
    && Good(st) && st.initial <= Lowest(st) && Next(st) == st.initial + |flat|
    && forall k :: Lowest(st) - st.initial <= k < |flat| && k - (Lowest(st) - st.initial) < |Contents(st)| ==>
         Contents(st)[k - (Lowest(st) - st.initial)] == Stamp(flat[k], st.initial + k)
  }

  /** What `out` must be, given the flat log before the operation. */
  ghost predicate Agrees(st: LogState, flat: seq<Record>, op: Op, strict: bool, out: Output)
    requires st.segments != []
  {
    match op
    case AppendOp(_) => out == Appended(st.initial + |flat|)
    case TruncateOp(_) => out == Truncated
    case LowestOp =>
      && out.Offset? && st.initial <= out.off <= st.initial + |flat|
      && (forall off :: out.off <= off < st.initial + |flat| ==> Read(st, off, true) != Err(OffsetOutOfRange(off)))
      && (forall off :: 0 <= off < out.off ==> Read(st, off, true) == Err(OffsetOutOfRange(off)))
    case HighestOp => out == Offset(if st.initial + |flat| == 0 then 0 else st.initial + |flat| - 1)
    case ReadOp(off) =>
      && out.Gave?
      && (out.result.Ok? ==> off >= st.initial && FlatLog.Read(flat, off - st.initial).Some?
                             && off < TWO_64
                             && out.result.value == Stamp(FlatLog.Read(flat, off - st.initial).value, off))
      && (out.result == Err(OffsetOutOfRange(off)) ==>
            off < Lowest(st) || off >= Next(st) || (!strict && Boundary(st, off)))
      && (out.result.Err? && out.result != Err(OffsetOutOfRange(off)) ==>
            out.result == Err(InvalidRecordSize) && off == 0 && st.initial == 0)
  }

  lemma {:induction false} AppendRefines(st: LogState, flat: seq<Record>, r: Record)
    requires Represents(st, flat) && Next(st) + 1 < TWO_64
    ensures Represents(Append(st, r), FlatLog.Append(flat, r))
  {
    hide Good, Contents, Append;
    AppendAdds(st, r);
    ContentsContiguous(st);
    KeepsLimits(st, r);
  }

  lemma {:induction false} TruncateRefines(st: LogState, flat: seq<Record>, lowest: uint64)
    requires Represents(st, flat) && After(lowest) < Next(st)
    ensures Represents(Truncate(st, lowest), flat)
  {
    hide Good, Contents, Truncate;
    var k := TruncateKeepsSuffix(st, lowest);
    assert Truncate(st, lowest).initial == st.initial by { InitialTruncated(st, lowest); }
    ContentsContiguous(st);
    ContentsContiguous(Truncate(st, lowest));
  }

  lemma {:induction false} InitialTruncated(st: LogState, lowest: uint64)
    ensures Truncate(st, lowest).initial == st.initial && Truncate(st, lowest).limits == st.limits
  {
  }

  lemma {:induction false} ReadAgrees(st: LogState, flat: seq<Record>, off: nat, strict: bool)
    requires Represents(st, flat)
    ensures Agrees(st, flat, ReadOp(off), strict, Gave(Read(st, off, strict)))
  {
    hide Good, Contents, Read, Boundary, Marshal;
    ReadStrict(st, off);
    ReadAsWritten(st, off);
    ContentsContiguous(st);
    if Lowest(st) <= off < Next(st) {
      var k := off - st.initial;
      assert Contents(st)[off - Lowest(st)] == Stamp(flat[k], off);
      MarshalSize(Stamp(flat[k], off));
    }
  }

  /** What the strict read holds is what lies from the lowest offset on. */
  lemma {:induction false} HeldFrom(st: LogState)
    requires Good(st)
    ensures forall off :: Lowest(st) <= off < Next(st) ==> Read(st, off, true) != Err(OffsetOutOfRange(off))
    ensures forall off :: 0 <= off < Lowest(st) ==> Read(st, off, true) == Err(OffsetOutOfRange(off))
  {
    hide Good, Contents, Read, Marshal;
    ContentsContiguous(st);
    forall off | 0 <= off < Next(st)
      ensures off < Lowest(st) <==> Read(st, off, true) == Err(OffsetOutOfRange(off))
    {
      ReadStrict(st, off);
    }
  }

  lemma {:induction false} TruncateKeepsReads(st: LogState, lowest: uint64)
    requires Good(st) && After(lowest) < Next(st)
    ensures Truncate(st, lowest).segments != [] && Truncate(st, lowest).segments[0].Next() > After(lowest)
    ensures forall off :: After(lowest) <= off ==> Read(Truncate(st, lowest), off, true) == Read(st, off, true)
  {
    hide Good, Read, Truncate, Contents;
    var _ := TruncateKeepsSuffix(st, lowest);
    forall off | After(lowest) <= off
      ensures Read(Truncate(st, lowest), off, true) == Read(st, off, true)
    {
      TruncatePreservesReads(st, lowest, off);
    }
  }

  lemma {:induction false} StepRefines(st: LogState, flat: seq<Record>, op: Op, strict: bool)
    requires Represents(st, flat) && Enabled(st, op)
    ensures Represents(Do(st, op, strict).0, DoFlat(flat, op))
    ensures Agrees(st, flat, op, strict, Do(st, op, strict).1)
    ensures op.ReadOp? || op.LowestOp? || op.HighestOp? ==> Do(st, op, strict).0 == st
    ensures op.TruncateOp? ==>
              && Do(st, op, strict).0.segments[0].Next() > After(op.lowest)
              && forall off :: After(op.lowest) <= off ==> Read(Do(st, op, strict).0, off, true) == Read(st, off, true)
  {
    hide Represents, Contents, Read, Append, Truncate, Boundary, Good;
    RepresentsBounds(st, flat);
    match op {
      case AppendOp(r) => AppendRefines(st, flat, r);
      case ReadOp(off) => ReadAgrees(st, flat, off, strict);
      case TruncateOp(lowest) =>
        TruncateRefines(st, flat, lowest);
        TruncateKeepsReads(st, lowest);
      case LowestOp => HeldFrom(st);
      case HighestOp =>
    }
  }

  lemma {:induction false} RepresentsBounds(st: LogState, flat: seq<Record>)
    requires Represents(st, flat)
    ensures Good(st) && st.initial <= Lowest(st) <= Next(st) == st.initial + |flat|
  {
    ContentsContiguous(st);
  }

  // ---------- whole runs

  predicate Legal(st: LogState, ops: seq<Op>, strict: bool)
    decreases |ops|
  {
    ops == [] || (Enabled(st, ops[0]) && Legal(Do(st, ops[0], strict).0, ops[1..], strict))
  }

  function Run(st: LogState, ops: seq<Op>, strict: bool): LogState
    requires Legal(st, ops, strict)
    decreases |ops|
  {
    if ops == [] then st else Run(Do(st, ops[0], strict).0, ops[1..], strict)
  }

  ghost function RunFlat(flat: seq<Record>, ops: seq<Op>): seq<Record>
    requires |flat| + |ops| < TWO_64
    decreases |ops|
  {
    if ops == [] then flat else RunFlat(DoFlat(flat, ops[0]), ops[1..])
  }

  /** A run on both logs, unfolded once. */
  lemma {:induction false} RunFirst(st: LogState, flat: seq<Record>, ops: seq<Op>, strict: bool)
    requires ops != [] && Legal(st, ops, strict) && |flat| + |ops| < TWO_64
    ensures Enabled(st, ops[0]) && Legal(Do(st, ops[0], strict).0, ops[1..], strict)
    ensures Run(st, ops, strict) == Run(Do(st, ops[0], strict).0, ops[1..], strict)
    ensures |DoFlat(flat, ops[0])| <= |flat| + 1 && RunFlat(flat, ops) == RunFlat(DoFlat(flat, ops[0]), ops[1..])
  {
    hide Enabled, Do;
  }

  lemma {:induction false} RunNothing(st: LogState, flat: seq<Record>, strict: bool)
    requires |flat| < TWO_64
    ensures Legal(st, [], strict) && Run(st, [], strict) == st && RunFlat(flat, []) == flat
  {
  }

  /** Every output of the run agrees with the flat log of its moment. */
  ghost predicate AllAgree(st: LogState, flat: seq<Record>, ops: seq<Op>, strict: bool)
    requires Legal(st, ops, strict) && |flat| + |ops| < TWO_64
    decreases |ops|
  {
    ops == [] ||
    (&& Agrees(st, flat, ops[0], strict, Do(st, ops[0], strict).1)
     && AllAgree(Do(st, ops[0], strict).0, DoFlat(flat, ops[0]), ops[1..], strict))
  }

  lemma {:induction false} RunRefines(st: LogState, flat: seq<Record>, ops: seq<Op>, strict: bool)
    requires Represents(st, flat) && Legal(st, ops, strict) && |flat| + |ops| < TWO_64
    ensures AllAgree(st, flat, ops, strict)
    ensures Represents(Run(st, ops, strict), RunFlat(flat, ops))
    decreases |ops|
  {
    hide Represents, Agrees, Do;
    if ops != [] {
      StepRefines(st, flat, ops[0], strict);
      RunRefines(Do(st, ops[0], strict).0, DoFlat(flat, ops[0]), ops[1..], strict);
    }
  }

  /** From an empty log at any initial offset, under any limits. */
  lemma {:induction false} SegmentedRefinesFlat(limits: Limits, initial: nat, ops: seq<Op>, strict: bool)
    requires GoodLimits(limits) && initial < TWO_64 && |ops| < TWO_64
    requires Legal(Fresh(limits, initial), ops, strict)
    ensures AllAgree(Fresh(limits, initial), [], ops, strict)
    ensures Represents(Run(Fresh(limits, initial), ops, strict), RunFlat([], ops))
  {
    FreshRepresents(limits, initial);
    RunRefines(Fresh(limits, initial), [], ops, strict);
  }

  /** In every run from an empty log, a segment that is not the last has reached the
      store limit or the index limit, and no segment had before its last record. */
  lemma {:induction false} SegmentsFilled(limits: Limits, initial: nat, ops: seq<Op>, strict: bool, i: nat)
    requires GoodLimits(limits) && initial < TWO_64 && Legal(Fresh(limits, initial), ops, strict)
    requires i < |Run(Fresh(limits, initial), ops, strict).segments|
    ensures var segs := Run(Fresh(limits, initial), ops, strict).segments;
            var rs := segs[i].records;
            && (i < |segs| - 1 ==> |Print(rs)| >= limits.maxStore || 12 * (|rs| + 1) > limits.maxIndex)
            && (rs != [] ==> |Print(rs[..|rs| - 1])| < limits.maxStore && 12 * |rs| <= limits.maxIndex)
  {
    hide Legal, Run, Print;
    FreshGood(limits, initial);
    RunFills(Fresh(limits, initial), ops, strict);
  }

  lemma {:induction false} RunFills(st: LogState, ops: seq<Op>, strict: bool)
    requires Good(st) && Filled(st) && Legal(st, ops, strict)
    ensures Filled(Run(st, ops, strict)) && Run(st, ops, strict).limits == st.limits
    decreases |ops|
  {
    hide Good, Filled, Append, Truncate, Read;
    if ops != [] {
      match ops[0] {
        case AppendOp(r) =>
          AppendAdds(st, r);
          AppendFills(st, r);
          KeepsLimits(st, r);
        case TruncateOp(lowest) =>
          var k := TruncateKeepsSuffix(st, lowest);
          InitialTruncated(st, lowest);
          SuffixFilled(st, Truncate(st, lowest), k);
        case _ =>
      }
      RunFills(Do(st, ops[0], strict).0, ops[1..], strict);
    }
  }

  lemma {:induction false} SuffixFilled(st: LogState, st': LogState, k: nat)
    requires Filled(st) && k < |st.segments| && st'.limits == st.limits && st'.segments == st.segments[k..]
    ensures Filled(st')
  {
    hide ReachedBy;
  }

  lemma {:induction false} FreshRepresents(limits: Limits, initial: nat)
    requires GoodLimits(limits) && initial < TWO_64
    ensures Represents(Fresh(limits, initial), [])
  {
    FreshGood(limits, initial);
  }
}
