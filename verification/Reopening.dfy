// A log that the code's own setup has reopened, with every segment open twice:
// what it reads, and where its first append goes.
module Reopening {
  import opened Bytes
  import opened Wrappers
  import opened Codec
  import opened Framing
  import opened LogSpec
  import opened LogTheorems
  import opened LogSegment
  import opened SegmentedLog

  /** Where handle `k` ends. */
  function HandleEnd(vs: seq<SegmentState>, l: Limits, k: nat): nat
    requires k < 2 * |vs|
  {
    if k % 2 == 0 then vs[k / 2].Next() else NextOpenedTwice(vs[k / 2], l)
  }

  predicate HandleCovers(vs: seq<SegmentState>, l: Limits, k: nat, off: nat, strict: bool)
    requires k < 2 * |vs|
  {
    vs[k / 2].base <= off && if strict then off < HandleEnd(vs, l, k) else off <= HandleEnd(vs, l, k)
  }

  /** Handle `k` covers what its segment covers, but for the second handle on an empty one. */
  lemma {:induction false} HandleCoversOnly(vs: seq<SegmentState>, l: Limits, k: nat, off: nat, strict: bool)
    requires Contiguous(vs) && k < 2 * |vs| && vs[k / 2].Next() < TWO_64
    ensures k % 2 == 0 ==> (HandleCovers(vs, l, k, off, strict) <==> Covers(vs[k / 2], off, strict))
    ensures k % 2 == 1 && HandleCovers(vs, l, k, off, strict) ==>
              Covers(vs[k / 2], off, strict) || (k == 2 * |vs| - 1 && Last(vs).records == [])
  {
    hide Contiguous;
    if k / 2 < |vs| - 1 {
      Ordered(vs, k / 2, |vs| - 1);
    }
  }

  /** The first handle that covers an offset is the first one on the segment that
      covers it; only the second handle on an empty segment covers more. */
  lemma {:induction false} FirstHandle(vs: seq<SegmentState>, l: Limits, off: nat, strict: bool, i: nat)
    requires Contiguous(vs) && i <= 2 * |vs| && forall j :: 0 <= j < |vs| ==> vs[j].Next() < TWO_64
    requires i < 2 * |vs| ==> HandleCovers(vs, l, i, off, strict)
    requires forall j :: 0 <= j < i ==> !HandleCovers(vs, l, j, off, strict)
    ensures var f := Find(vs, off, strict);
            if f < |vs| then i == 2 * f
            else i == 2 * |vs| || (i == 2 * |vs| - 1 && Last(vs).records == [] && HandleCovers(vs, l, i, off, strict))
  {
    hide Contiguous, Covers, HandleCovers, Find;
    var f := Find(vs, off, strict);
    if f < |vs| {
      assert 2 * f / 2 == f && 2 * f % 2 == 0;
      HandleCoversOnly(vs, l, 2 * f, off, strict);
    }
    if i < 2 * |vs| {
      HandleCoversOnly(vs, l, i, off, strict);
      if i % 2 == 1 {
        HandleCoversOnly(vs, l, i - 1, off, strict);
        assert (i - 1) / 2 == i / 2;
      }
    }
  }

  lemma {:induction false} Open(log: Log, vs: seq<SegmentState>)
    requires log.Reopened(vs)
    ensures vs != [] && Contiguous(vs) && GoodLimits(log.limits) && 2 * |vs| <= |log.segments|
    ensures log !in log.Repr && log.dir !in log.Repr
    ensures forall s :: s in log.segments ==> s.Within(log.Repr) && s.Opened()
    ensures forall j :: 0 <= j < |vs| ==> vs[j].Next() < TWO_64 && |vs[j].records| <= TWO_32
  {
    hide Segment.Clean, Print, NextOpenedTwice, Contiguous;
    forall s | s in log.segments
      ensures s.Within(log.Repr) && s.Opened()
    {
      var i :| 0 <= i < |log.segments| && log.segments[i] == s;
      if i < 2 * |vs| {
        assert log.Handle(log.segments[i], vs[i / 2], i % 2 == 0);
      }
    }
    forall j | 0 <= j < |vs|
      ensures vs[j].Next() < TWO_64 && |vs[j].records| <= TWO_32
    {
      assert log.Handle(log.segments[2 * j], vs[j], true);
    }
  }

  lemma {:induction false} HandleAt(log: Log, vs: seq<SegmentState>, k: nat, off: nat, strict: bool)
    requires log.Reopened(vs) && k < 2 * |vs|
    ensures log.Handle(log.segments[k], vs[k / 2], k % 2 == 0)
    ensures log.segments[k].nextOffset == HandleEnd(vs, log.limits, k)
    ensures log.segments[k].Covering(off, strict) == HandleCovers(vs, log.limits, k, off, strict)
    ensures k % 2 == 0 ==> log.segments[k].Valid()
    ensures log.segments[k].View() == vs[k / 2]
    ensures log.segments[k].store.Contents() == Print(vs[k / 2].records)
  {
    hide Segment.Clean, Print, NextOpenedTwice, Contiguous;
    assert log.Handle(log.segments[k], vs[k / 2], k % 2 == 0);
  }

  lemma {:induction false} NothingBuffered(before: bytes, data: bytes, buf: bytes)
    requires data + buf == before + [] && before <= data
    ensures data == before && buf == []
  {
    assert |data| + |buf| == |before|;
  }

  /** A read leaves the log as it was. */
  twostate lemma {:induction false} ReadKeeps(new log: Log, new vs: seq<SegmentState>, new i: nat)
    requires old(allocated(log)) && old(log.Reopened(vs)) && unchanged(log) && unchanged(log.dir)
    requires i < |log.segments| && old(allocated(log.segments))
    requires forall o :: o in log.Repr && o != log.segments[i].store && o != log.segments[i].store.file ==> unchanged(o)
    requires log.segments[i].store.size == old(log.segments[i].store.size) && log.segments[i].Opened()
    requires log.segments[i].store.Contents() == old(log.segments[i].store.Contents())
    requires old(log.segments[i].store.file.data) <= log.segments[i].store.file.data
    ensures log.Reopened(vs)
  {
    hide Segment.Valid, Segment.Clean, Segment.Opened, Print, NextOpenedTwice, Contiguous;
    var s := log.segments[i];
    if i < 2 * |vs| {
      assert old(log.Handle(log.segments[i], vs[i / 2], i % 2 == 0));
      NothingBuffered(old(s.store.file.data), s.store.file.data, s.store.buf);
      assert s.store.buf == old(s.store.buf) && s.store.file.data == old(s.store.file.data);
    }
    forall k | 0 <= k < 2 * |vs|
      ensures log.segments[k].Same()
    {
      assert log.segments[k].Within(log.Repr);
      assert old(log.Handle(log.segments[k], vs[k / 2], k % 2 == 0));
      if 2 * |vs| <= i {
        assert log.segments[k].Apart(s);
      }
    }
    log.HandlesUndisturbed(vs, 2 * |vs|);
    forall k | 2 * |vs| <= k < |log.segments| && k != i
      ensures log.segments[k].Opened()
    {
      assert if k < i then log.segments[k].Apart(s) else s.Apart(log.segments[k]);
      log.segments[k].Undisturbed();
    }
  }

  twostate lemma {:induction false} NothingRead(new log: Log, new vs: seq<SegmentState>)
    requires old(allocated(log)) && old(log.Reopened(vs)) && unchanged(log) && unchanged(log.dir)
    requires old(allocated(log.segments)) && forall o :: o in log.Repr ==> unchanged(o)
    ensures log.Reopened(vs)
  {
    hide Segment.Valid, Segment.Clean, Print, NextOpenedTwice, Contiguous;
  }

  /** What the log reads, given the handle `i` that answers. */
  function ReadTwice(l: Limits, initial: nat, vs: seq<SegmentState>, off: nat, strict: bool): Result<Record>
    requires vs != []
  {
    if strict && Last(vs).records == [] && off == Last(vs).base < NextOpenedTwice(Last(vs), l) then Err(EndOfFile)
    else LogSpec.Read(LogState(l, initial, vs), off, strict)
  }

  lemma {:induction false} Answers(
      l: Limits, initial: nat, vs: seq<SegmentState>, off: uint64, strict: bool, i: nat, r: Result<Record>)
    requires vs != [] && Contiguous(vs) && i <= 2 * |vs|
    requires forall j :: 0 <= j < |vs| ==> |vs[j].records| <= TWO_32 && vs[j].Next() < TWO_64
    requires var f := Find(vs, off, strict);
             if f < |vs| then i == 2 * f
             else i == 2 * |vs| || (i == 2 * |vs| - 1 && Last(vs).records == [] && HandleCovers(vs, l, i, off, strict))
    requires i == 2 * |vs| ==> !HandleCovers(vs, l, i - 1, off, strict)
    requires i < 2 * |vs| && HandleEnd(vs, l, i) <= off ==> r == Err(OffsetOutOfRange(off))
    requires i < 2 * |vs| && off < HandleEnd(vs, l, i) ==>
               if i % 2 == 0 then r == ReadSegment(vs[i / 2], off) else vs[i / 2].records == [] ==> r == Err(EndOfFile)
    ensures Find(vs, off, strict) < |vs| ==> r == LogSpec.Read(LogState(l, initial, vs), off, strict)
    ensures (i == 2 * |vs| ==> r == Err(OffsetOutOfRange(off))) ==> r == ReadTwice(l, initial, vs, off, strict)
  {
    hide Find, ReadSegment, Fetch, Contiguous;
    var f := Find(vs, off, strict);
    if f < |vs| {
      if f < |vs| - 1 {
        Ordered(vs, f, |vs| - 1);
      }
      assert 2 * f / 2 == f && 2 * f % 2 == 0;
      if off < vs[f].Next() {
        ReadInside(vs[f], off);
      }
    }
  }

  /** Log.Read on the log reopened as written.  On the offsets of the old log, and on
      all offsets until a segment is added, it reads what the old log read; only the
      strict bound lets it ask the second handle on an empty segment, in vain. */
  method ReadReopened(log: Log, ghost vs: seq<SegmentState>, off: uint64, strict: bool) returns (r: Result<Record>)
    requires log.Reopened(vs)
    modifies log.Repr
    ensures log.Reopened(vs) && unchanged(log)
    ensures var st := LogState(log.limits, log.initialOffset, vs);
            && (Find(vs, off, strict) < |vs| ==> r == LogSpec.Read(st, off, strict))
            && (|log.segments| == 2 * |vs| ==> r == ReadTwice(log.limits, log.initialOffset, vs, off, strict))
  {
    hide Log.Reopened, Segment.Valid, Segment.Clean, Segment.Opened, Segment.Covering, Log.Handle;
    hide Contiguous, ReadSegment, Find, HandleCovers, HandleEnd, ReadTwice, LogSpec.Read, Print;
    Open(log, vs);
    forall k | 0 <= k < 2 * |vs|
      ensures log.segments[k].Covering(off, strict) == HandleCovers(vs, log.limits, k, off, strict)
      ensures k % 2 == 0 ==> log.segments[k].Valid()
    {
      HandleAt(log, vs, k, off, strict);
    }
    ghost var i;
    ghost var limits, initial := log.limits, log.initialOffset;
    r, i := log.Lookup(off, strict);
    ghost var k := if i < 2 * |vs| then i else 2 * |vs|;
    FirstHandle(vs, limits, off, strict, k);
    if i < |log.segments| && off < log.segments[i].nextOffset {
      ReadKeeps(log, vs, i);
    } else {
      NothingRead(log, vs);
    }
    if i < 2 * |vs| {
      HandleAt(log, vs, i, off, strict);
      NothingPrinted();
    }
    Answers(limits, initial, vs, off, strict, k, r);
  }

  /** Where the first append on the log reopened as written goes. */
  function FirstAppend(vs: seq<SegmentState>, l: Limits): nat
    requires vs != []
  {
    HighestBelow(NextOpenedTwice(Last(vs), l)) + 1
  }

  /** It is the old next offset exactly if the last segment holds one record or is full. */
  lemma {:induction false} FirstAppendIs(vs: seq<SegmentState>, l: Limits)
    requires vs != [] && Contiguous(vs) && GoodLimits(l) && Last(vs).Next() + 1 < TWO_64
    ensures var base, n := FirstAppend(vs, l), |Last(vs).records|;
            && base == (if n == l.maxIndex / ENTRY_WIDTH then Last(vs).Next() else Last(vs).base + 1)
            && (base == Last(vs).Next() <==> n == 1 || n == l.maxIndex / ENTRY_WIDTH)
            && forall j :: 0 <= j < |vs| ==> vs[j].base < base
  {
    hide Contiguous;
    forall j | 0 <= j < |vs|
      ensures vs[j].base <= Last(vs).base
    {
      if j < |vs| - 1 {
        Ordered(vs, j, |vs| - 1);
      }
    }
  }

  /** Where it is not, and the last segment is not empty, the offset is taken: the
      log still reads the record that the old log had there. */
  lemma {:induction false} AppendIsLost(vs: seq<SegmentState>, l: Limits, initial: nat, strict: bool)
    requires vs != [] && Contiguous(vs) && GoodLimits(l) && Last(vs).Next() + 1 < TWO_64
    requires 1 < |Last(vs).records| < l.maxIndex / ENTRY_WIDTH
    ensures var base := FirstAppend(vs, l);
            && Find(vs, base, strict) < |vs|
            && (strict ==> LogSpec.Read(LogState(l, initial, vs), base, true) == Fetch(Last(vs).records[1]))
  {
    hide Find, Fetch, Contiguous;
    FirstAppendIs(vs, l);
    var base, n := FirstAppend(vs, l), |vs| - 1;
    assert Covers(vs[n], base, strict);
    var f := Find(vs, base, strict);
    if strict && f < n {
      Ordered(vs, f, n);
    }
  }

  /** Log.Append on the log reopened as written.  The active handle has a full index,
      so the log rotates on its highest offset, which is too low unless the last
      segment holds one record or is full; the append then takes an offset that is
      in use, or leaves one out on an empty segment. */
  method AppendReopened(log: Log, ghost vs: seq<SegmentState>, record: Record) returns (r: Result<nat>)
    requires log.Reopened(vs) && |log.segments| == 2 * |vs| && Last(vs).Next() + 2 < TWO_64
    modifies log, log.dir`files
    ensures log.Reopened(vs) && old(log.segments) <= log.segments && |log.segments| == 2 * |vs| + 1
    ensures var base := FirstAppend(vs, log.limits);
            && r == Ok(base) && log.activeSegment.Valid()
            && log.activeSegment.View() == SegmentState(base, [Stamp(record, base)])
  {
    hide Log.Reopened, Segment.Valid, Segment.Clean, Segment.HasRoom, FirstAppend, Print, Marshal, AppendRecord;
    ActiveIs(log, vs);
    var highest := log.HighestOffset();
    if log.activeSegment.IsMaxed() {
      RotateReopened(log, vs, highest);
    }
    r := log.activeSegment.Append(record);
    Stamped(record, highest + 1);
    AppendKeeps(log, vs);
  }

  /** The rotation finds no files at its base. */
  method RotateReopened(log: Log, ghost vs: seq<SegmentState>, highest: nat)
    requires log.Reopened(vs) && |log.segments| == 2 * |vs| && Last(vs).Next() + 2 < TWO_64
    requires highest + 1 == FirstAppend(vs, log.limits)
    modifies log, log.dir`files
    ensures log.limits == old(log.limits) && log !in log.Repr && log.dir !in log.Repr
    ensures log.activeSegment != null && log.segments == old(log.segments) + [log.activeSegment]
    ensures log.Repr == old(log.Repr) + log.activeSegment.Repr()
    ensures forall o :: o in log.activeSegment.Repr() ==> fresh(o)
    ensures log.activeSegment.HasRoom() && log.activeSegment.View() == SegmentState(highest + 1, [])
    ensures log.activeSegment.Opened() && log.activeSegment.store.size < TWO_63
  {
    hide Log.Reopened, Segment.Valid, Segment.Clean, FirstAppend, ClosedImage, NextAfter, Print;
    Open(log, vs);
    ActiveIs(log, vs);
    EmptyImage(highest + 1, log.limits);
    EmptySegmentHasRoom(SegmentState(highest + 1, []), log.limits);
    var _ := log.NewSegment(highest + 1, []);
  }

  lemma {:induction false} ActiveIs(log: Log, vs: seq<SegmentState>)
    requires log.Reopened(vs) && |log.segments| == 2 * |vs| && Last(vs).Next() + 2 < TWO_64
    ensures var s := log.activeSegment;
            && log.segments != [] && log.dir.present && s == Last(log.segments) && s.Opened() && s.IsMaxed()
            && s.nextOffset == NextOpenedTwice(Last(vs), log.limits)
    ensures var base := FirstAppend(vs, log.limits); base + 1 < TWO_64 && base !in log.dir.files
    ensures HighestBelow(log.activeSegment.nextOffset) + 1 == FirstAppend(vs, log.limits)
  {
    hide Segment.Valid, Segment.Clean, Print, NextOpenedTwice, Contiguous;
    FirstAppendIs(vs, log.limits);
    assert log.Handle(log.segments[2 * |vs| - 1], vs[|vs| - 1], false);
    forall b | b in log.dir.files
      ensures b < FirstAppend(vs, log.limits)
    {
      var j :| 0 <= j < |vs| && Bases(vs)[j] == b;
    }
  }

  lemma {:induction false} Stamped(record: Record, base: nat)
    requires base < TWO_64
    ensures AppendRecord(SegmentState(base, []), record) == SegmentState(base, [Stamp(record, base)])
  {
  }

  /** A segment on new files leaves the handles as they were. */
  twostate lemma {:induction false} AppendKeeps(new log: Log, new vs: seq<SegmentState>)
    requires old(allocated(log)) && old(log.Reopened(vs)) && old(|log.segments|) == 2 * |vs|
    requires log.limits == old(log.limits) && log.dir.present && log !in log.Repr && log.dir !in log.Repr
    requires log.activeSegment != null && log.activeSegment.Opened()
    requires log.segments == old(log.segments) + [log.activeSegment]
    requires log.Repr == old(log.Repr) + log.activeSegment.Repr() && forall o :: o in old(log.Repr) ==> unchanged(o)
    requires forall o :: o in log.activeSegment.Repr() ==> fresh(o)
    ensures log.Reopened(vs)
  {
    hide Segment.Valid, Segment.Clean, Segment.Opened, Print, NextOpenedTwice, Contiguous;
    var s := log.activeSegment;
    assert s.Within(s.Repr());
    forall k | 0 <= k < 2 * |vs|
      ensures log.segments[k].Same() && log.segments[k].Apart(s)
    {
      assert log.segments[k] == old(log.segments)[k];
      assert old(log.Handle(log.segments[k], vs[k / 2], k % 2 == 0));
      assert log.segments[k].Within(old(log.Repr));
    }
    assert log.segments[..2 * |vs|] == old(log.segments);
    log.HandlesUndisturbed(vs, 2 * |vs|);
  }

  lemma {:induction false} NothingPrinted()
    ensures Print([]) == []
  {
  }
}
