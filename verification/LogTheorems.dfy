// What the operations of the segmented log mean for its contents.
module LogTheorems {
  import opened Bytes
  import opened Wrappers
  import opened Codec
  import opened Framing
  import opened LogSpec

  lemma {:induction false} GoodParts(st: LogState)
    requires Good(st)
    ensures Contiguous(st.segments) && st.segments != []
  {
  }

  lemma {:induction false} FreshGood(limits: Limits, initial: nat)
    requires GoodLimits(limits) && initial < TWO_64
    ensures Good(Fresh(limits, initial))
    ensures Next(Fresh(limits, initial)) == Lowest(Fresh(limits, initial)) == initial
            && Contents(Fresh(limits, initial)) == []
  {
    hide Marshal;
    assert Print([]) == [];
    assert Flatten([SegmentState(initial, [])]) == [] + Flatten([]);
  }

  // ---------- the contents of a run of segments

  lemma {:induction false} FlattenConcat(a: seq<SegmentState>, b: seq<SegmentState>)
    ensures Flatten(a + b) == Flatten(a) + Flatten(b)
  {
    if a == [] {
      assert a + b == b;
    } else {
      assert (a + b)[1..] == a[1..] + b;
      FlattenConcat(a[1..], b);
      Regroup(a[0].records, Flatten(a[1..]), Flatten(b));
    }
  }

  lemma {:induction false} FlattenLast(segs: seq<SegmentState>)
    requires segs != []
    ensures Flatten(segs) == Flatten(segs[..|segs| - 1]) + Last(segs).records
  {
    var init, last := segs[..|segs| - 1], [Last(segs)];
    assert segs == init + last;
    FlattenConcat(init, last);
    assert last[1..] == [];
  }

  lemma {:induction false} Ordered(segs: seq<SegmentState>, i: nat, j: nat)
    requires Contiguous(segs) && i < j < |segs|
    ensures segs[i].Next() <= segs[j].base
    ensures segs[i].records != [] && segs[j].records != []
  {
    assert Follows(segs[j - 1], segs[j]);
    if i < j - 1 {
      Ordered(segs, i, j - 1);
    }
  }

  lemma {:induction false} ContiguousTail(segs: seq<SegmentState>)
    requires Contiguous(segs) && segs != []
    ensures Contiguous(segs[1..])
    ensures |segs| > 1 ==> Follows(segs[0], segs[1])
  {
    forall i, j | 0 <= i < j < |segs[1..]| && j == i + 1
      ensures Follows(segs[1..][i], segs[1..][j])
    {
      assert Follows(segs[i + 1], segs[j + 1]);
    }
  }

  lemma {:induction false} FlattenLength(segs: seq<SegmentState>)
    requires Contiguous(segs) && segs != []
    ensures |Flatten(segs)| == Last(segs).Next() - segs[0].base
  {
    ContiguousTail(segs);
    if |segs| > 1 {
      FlattenLength(segs[1..]);
    }
  }

  /** Record `k` of segment `i` stands at its offset, counted from the lowest. */
  lemma {:induction false} FlattenAt(segs: seq<SegmentState>, i: nat, k: nat)
    requires Contiguous(segs) && i < |segs| && k < |segs[i].records|
    ensures segs[0].base <= segs[i].base
    ensures segs[i].base + k - segs[0].base < |Flatten(segs)|
    ensures Flatten(segs)[segs[i].base + k - segs[0].base] == segs[i].records[k]
  {
    ContiguousTail(segs);
    if i > 0 {
      FlattenAt(segs[1..], i - 1, k);
    }
  }

  /** Every offset from the lowest to the next lies in a segment. */
  lemma {:induction false} Locate(segs: seq<SegmentState>, off: nat) returns (i: nat)
    requires Contiguous(segs) && segs != []
    requires segs[0].base <= off < Last(segs).Next()
    ensures i < |segs| && segs[i].base <= off < segs[i].Next()
  {
    if off < segs[0].Next() {
      i := 0;
    } else {
      ContiguousTail(segs);
      i := Locate(segs[1..], off);
      i := i + 1;
    }
  }

  /** The log is a contiguous map from offsets to records: nothing is missing
      between the lowest and the next offset, and each record carries its own. */
  lemma {:induction false} ContentsContiguous(st: LogState)
    requires Good(st)
    ensures |Contents(st)| == Next(st) - Lowest(st)
    ensures forall k :: 0 <= k < |Contents(st)| ==> Contents(st)[k].offset == Lowest(st) + k
  {
    FlattenLength(st.segments);
    forall k | 0 <= k < |Contents(st)|
      ensures Contents(st)[k].offset == Lowest(st) + k
    {
      var i := Locate(st.segments, Lowest(st) + k);
      FlattenAt(st.segments, i, Lowest(st) + k - st.segments[i].base);
    }
  }

  /** The reader's bytes are the printed contents. */
  lemma {:induction false} StreamIsPrint(segs: seq<SegmentState>)
    ensures Stream(segs) == Print(Flatten(segs))
  {
    if segs != [] {
      StreamIsPrint(segs[1..]);
      PrintConcat(segs[0].records, Flatten(segs[1..]));
    }
  }

  // ---------- Append

  lemma {:induction false} EmptySegmentHasRoom(s: SegmentState, l: Limits)
    requires GoodLimits(l) && s.records == []
    ensures !IsMaxed(s, l)
  {
  }

  lemma {:induction false} RotatedSegments(st: LogState)
    requires Good(st) && Next(st) + 1 < TWO_64
    ensures var segs := Rotate(st.segments, st.limits, Highest(st) + 1);
            && segs[0].base == Lowest(st)
            && Last(segs).Next() == Next(st)
            && !IsMaxed(Last(segs), st.limits)
            && GoodSegment(Last(segs), st.limits)
            && Flatten(segs) == Contents(st)
  {
    var last := Last(st.segments);
    if IsMaxed(last, st.limits) {
      assert last.records != [];
      var segs := Rotate(st.segments, st.limits, Highest(st) + 1);
      FlattenLast(segs);
      assert segs[..|segs| - 1] == st.segments;
      assert Flatten(st.segments) + [] == Flatten(st.segments);
    }
  }

  lemma {:induction false} ReplaceLast(segs: seq<SegmentState>, s: SegmentState)
    requires Contiguous(segs) && segs != []
    requires s.base == Last(segs).base && s.records != []
    ensures Contiguous(segs[|segs| - 1 := s])
  {
  }

  lemma {:induction false} AddLast(segs: seq<SegmentState>, s: SegmentState)
    requires Contiguous(segs) && segs != []
    requires Follows(Last(segs), s)
    ensures Contiguous(segs + [s])
  {
  }

  lemma {:induction false} AppendGood(st: LogState, r: Record)
    requires Good(st) && Next(st) + 1 < TWO_64
    ensures Good(Append(st, r))
  {
    hide Print, Marshal, Contiguous;
    RotatedSegments(st);
    var segs, last := st.segments, Last(st.segments);
    var s := AppendRecord(Last(Rotate(segs, st.limits, Highest(st) + 1)), r);
    AppendRecordGood(Last(Rotate(segs, st.limits, Highest(st) + 1)), r, st.limits);
    if IsMaxed(last, st.limits) {
      assert last.records != [];
      AddLast(segs, s);
      assert Append(st, r).segments == segs + [s];
    } else {
      ReplaceLast(segs, s);
      assert Append(st, r).segments == segs[|segs| - 1 := s];
    }
  }

  /** Append adds exactly the stamped record, under the next offset, whether or
      not it rotates; the invariant and the lowest offset are kept. */
  lemma {:induction false} AppendAdds(st: LogState, r: Record)
    requires Good(st) && Next(st) + 1 < TWO_64
    ensures Good(Append(st, r))
    ensures Contents(Append(st, r)) == Contents(st) + [Stamp(r, Next(st))]
    ensures Lowest(Append(st, r)) == Lowest(st) && Next(Append(st, r)) == Next(st) + 1
  {
    AppendGood(st, r);
    hide IsMaxed, Good, Marshal, Print, Rotate, AppendLast, Flatten;
    RotatedSegments(st);
    AppendLastContents(Rotate(st.segments, st.limits, Highest(st) + 1), r);
  }

  lemma {:induction false} KeepsLimits(st: LogState, r: Record)
    requires Good(st) && Next(st) + 1 < TWO_64
    ensures Append(st, r).limits == st.limits && Append(st, r).initial == st.initial
  {
  }

  lemma {:induction false} AppendLastContents(segs: seq<SegmentState>, r: Record)
    requires segs != [] && Last(segs).Next() < TWO_64
    ensures var segs' := AppendLast(segs, r);
            && Flatten(segs') == Flatten(segs) + [Stamp(r, Last(segs).Next())]
            && segs'[0].base == segs[0].base && Last(segs').Next() == Last(segs).Next() + 1
  {
    hide Flatten;
    var segs' := AppendLast(segs, r);
    FlattenLast(segs);
    FlattenLast(segs');
    assert segs'[..|segs| - 1] == segs[..|segs| - 1];
    Regroup(Flatten(segs[..|segs| - 1]), Last(segs).records, [Stamp(r, Last(segs).Next())]);
  }

  /** An append rotates exactly when the last segment has reached the store limit or
      has no room for another index entry: then the record starts a segment at the
      next offset, and otherwise it joins the last one. */
  lemma {:induction false} RotatesExactly(st: LogState, r: Record)
    requires Good(st) && Next(st) + 1 < TWO_64
    ensures var segs, last, stamped := st.segments, Last(st.segments), Stamp(r, Next(st));
            Append(st, r).segments ==
              if |Print(last.records)| >= st.limits.maxStore || 12 * (|last.records| + 1) > st.limits.maxIndex
              then segs + [SegmentState(Next(st), [stamped])]
              else segs[..|segs| - 1] + [SegmentState(last.base, last.records + [stamped])]
  {
    hide Print, Marshal, Contiguous;
    var segs, last, stamped := st.segments, Last(st.segments), Stamp(r, Next(st));
    if last.records == [] {
      EmptySegmentHasRoom(last, st.limits);
    }
    assert [] + [stamped] == [stamped];
    if IsMaxed(last, st.limits) {
      assert Append(st, r).segments == segs + [SegmentState(Next(st), [stamped])];
    } else {
      assert Append(st, r).segments == segs[..|segs| - 1] + [SegmentState(last.base, last.records + [stamped])];
    }
  }

  /** Every segment but the last has reached a limit, and none had before its last record. */
  ghost predicate Filled(st: LogState) {
    && (forall i :: 0 <= i < |st.segments| - 1 ==> ReachedBy(st.segments[i].records, st.limits))
    && forall i :: 0 <= i < |st.segments| && st.segments[i].records != [] ==>
         !ReachedBy(st.segments[i].records[..|st.segments[i].records| - 1], st.limits)
  }

  /** These records use up the store limit, or leave no room in the index. */
  predicate ReachedBy(rs: seq<Record>, l: Limits) {
    |Print(rs)| >= l.maxStore || 12 * (|rs| + 1) > l.maxIndex
  }

  lemma {:induction false} AppendFills(st: LogState, r: Record)
    requires Good(st) && Next(st) + 1 < TWO_64 && Filled(st)
    ensures Filled(Append(st, r))
  {
    hide Good, Filled, Append, ReachedBy, Print;
    RotatesExactly(st, r);
    RotatesWhen(st);
    KeepsLimits(st, r);
    var last, stamped := Last(st.segments), Stamp(r, Next(st));
    if ReachedBy(last.records, st.limits) {
      NothingReached(st.limits);
      assert [stamped][..0] == [];
      FilledMore(st, Append(st, r), SegmentState(Next(st), [stamped]));
    } else {
      assert (last.records + [stamped])[..|last.records|] == last.records;
      FilledLast(st, Append(st, r), SegmentState(last.base, last.records + [stamped]));
    }
  }

  lemma {:induction false} FilledMore(st: LogState, st': LogState, s: SegmentState)
    requires Filled(st) && st.segments != [] && ReachedBy(Last(st.segments).records, st.limits)
    requires st'.limits == st.limits && st'.segments == st.segments + [s]
    requires s.records != [] && !ReachedBy(s.records[..|s.records| - 1], st.limits)
    ensures Filled(st')
  {
    hide ReachedBy;
  }

  lemma {:induction false} FilledLast(st: LogState, st': LogState, s: SegmentState)
    requires Filled(st) && st.segments != []
    requires st'.limits == st.limits && st'.segments == st.segments[..|st.segments| - 1] + [s]
    requires s.records != [] && !ReachedBy(s.records[..|s.records| - 1], st.limits)
    ensures Filled(st')
  {
    hide ReachedBy;
  }

  lemma {:induction false} RotatesWhen(st: LogState)
    requires Good(st)
    ensures ReachedBy(Last(st.segments).records, st.limits) <==>
            |Print(Last(st.segments).records)| >= st.limits.maxStore
            || 12 * (|Last(st.segments).records| + 1) > st.limits.maxIndex
  {
  }

  lemma {:induction false} NothingReached(l: Limits)
    ensures GoodLimits(l) ==> !ReachedBy([], l)
  {
  }

  /** Rotating on a base below the next offset leaves two segments that overlap. */
  lemma {:induction false} StaleRotation(segs: seq<SegmentState>, k: nat)
    requires k + 1 < |segs| && segs[k + 1].base != segs[k].Next()
    ensures !Contiguous(segs)
  {
    assert !Follows(segs[k], segs[k + 1]);
  }

  /** Whether a rotation on the base `highest + 1` is the one the log needs, if it needs any. */
  predicate InStep(st: LogState, highest: nat)
    requires st.segments != []
  {
    IsMaxed(Last(st.segments), st.limits) ==> highest + 1 == Next(st)
  }

  lemma {:induction false} InStepIsAppend(st: LogState, r: Record, highest: nat)
    requires Good(st) && Next(st) + 1 < TWO_64 && highest <= Highest(st) && InStep(st, highest)
    ensures AppendAfter(st, r, highest) == Append(st, r)
    ensures var segs := LogSpec.Rotate(st.segments, st.limits, highest + 1);
            segs != [] && !IsMaxed(Last(segs), st.limits) && Last(segs).Next() == Next(st)
  {
    hide IsMaxed, Good, Flatten;
    GoodParts(st);
    RotatedSegments(st);
    if IsMaxed(Last(st.segments), st.limits) {
      assert Rotate(st.segments, st.limits, Highest(st) + 1) == st.segments + [SegmentState(Highest(st) + 1, [])];
      assert highest == Highest(st);
    }
  }

  // ---------- Read

  /** The strict Read succeeds exactly on the records that marshal to at least a byte. */
  lemma {:induction false} ReadStrict(st: LogState, off: nat)
    requires Good(st)
    ensures Read(st, off, true) ==
            if Lowest(st) <= off < Next(st) && off - Lowest(st) < |Contents(st)|
            then Fetch(Contents(st)[off - Lowest(st)])
            else Err(OffsetOutOfRange(off))
  {
    hide Fetch, Print;
    var segs := st.segments;
    FlattenLength(segs);
    var i := Find(segs, off, true);
    if Lowest(st) <= off < Next(st) {
      var j := Locate(segs, off);
      assert Covers(segs[j], off, true);
      FlattenAt(segs, i, off - segs[i].base);
    } else if i < |segs| {
      if i > 0 { Ordered(segs, 0, i); }
      if i < |segs| - 1 { Ordered(segs, i, |segs| - 1); }
      assert false;
    }
  }

  /** Whether `off` is the base offset of a segment other than the first. */
  predicate Boundary(st: LogState, off: nat) {
    exists i :: 0 < i < |st.segments| && st.segments[i].base == off
  }

  lemma {:induction false} InnerNextIsBoundary(st: LogState, i: nat)
    requires Good(st) && i + 1 < |st.segments|
    ensures Boundary(st, st.segments[i].Next())
  {
    assert Follows(st.segments[i], st.segments[i + 1]);
  }

  lemma {:induction false} BoundaryRefused(st: LogState, b: nat)
    requires Good(st) && 0 < b < |st.segments|
    ensures Read(st, st.segments[b].base, false) == Err(OffsetOutOfRange(st.segments[b].base))
  {
    hide Fetch;
    var segs, off := st.segments, st.segments[b].base;
    assert Follows(segs[b - 1], segs[b]);
    assert Covers(segs[b - 1], off, false);
    var i := Find(segs, off, false);
    if i < b - 1 {
      Ordered(segs, i, b - 1);
    }
  }

  lemma {:induction false} ElsewhereAgrees(st: LogState, off: nat)
    requires Good(st) && !Boundary(st, off)
    ensures Read(st, off, false) == Read(st, off, true)
  {
    hide Fetch, Find, Print;
    var segs := st.segments;
    var i, j := Find(segs, off, false), Find(segs, off, true);
    assert i <= j by {
      assert j < |segs| ==> Covers(segs[j], off, false);
    }
    if i < |segs| && off < segs[i].Next() {
      assert Covers(segs[i], off, true);
    } else if i < |segs| {
      if i + 1 < |segs| {
        InnerNextIsBoundary(st, i);
      }
    }
  }

  /** As written, Read refuses the base offset of every non-first segment and
      otherwise agrees with the strict Read. */
  lemma {:induction false} ReadAsWritten(st: LogState, off: nat)
    requires Good(st)
    ensures Read(st, off, false) == if Boundary(st, off) then Err(OffsetOutOfRange(off)) else Read(st, off, true)
  {
    if Boundary(st, off) {
      var b :| 0 < b < |st.segments| && st.segments[b].base == off;
      BoundaryRefused(st, b);
    } else {
      ElsewhereAgrees(st, off);
    }
  }

  // ---------- Truncate

  lemma {:induction false} KeepIsSuffix(segs: seq<SegmentState>, end: nat) returns (k: nat)
    requires Contiguous(segs) && segs != [] && end < Last(segs).Next()
    ensures k < |segs| && Keep(segs, end) == segs[k..]
    ensures forall j :: 0 <= j < |segs| ==> (segs[j].Next() <= end <==> j < k)
    ensures k > 0 ==> segs[k].base <= end
  {
    if segs[0].Next() > end {
      k := 0;
      KeepsAll(segs, end);
      forall j | 0 < j < |segs|
        ensures segs[j].Next() > end
      {
        Ordered(segs, 0, j);
      }
    } else {
      ContiguousTail(segs);
      k := KeepIsSuffix(segs[1..], end);
      k := k + 1;
      assert segs[1..][k - 1..] == segs[k..];
    }
  }

  lemma {:induction false} KeepsAll(segs: seq<SegmentState>, end: nat)
    requires Contiguous(segs) && segs != [] && end < segs[0].Next()
    ensures Keep(segs, end) == segs
  {
    ContiguousTail(segs);
    if |segs| > 1 {
      KeepsAll(segs[1..], end);
    } else {
      assert segs == [segs[0]];
    }
  }

  lemma {:induction false} ContiguousSuffix(segs: seq<SegmentState>, k: nat)
    requires Contiguous(segs) && k < |segs|
    ensures Contiguous(segs[k..])
    ensures 0 <= segs[k].base - segs[0].base <= |Flatten(segs)|
    ensures Flatten(segs[k..]) == Flatten(segs)[segs[k].base - segs[0].base..]
  {
    var tail := segs[k..];
    forall i, j | 0 <= i < j < |tail| && j == i + 1
      ensures Follows(tail[i], tail[j])
    {
      assert Follows(segs[k + i], segs[k + j]);
    }
    if k > 0 {
      Ordered(segs, 0, k);
    }
    SuffixContents(segs, k);
  }

  lemma {:induction false} SuffixContents(segs: seq<SegmentState>, k: nat)
    requires k < |segs| && Contiguous(segs) && Contiguous(segs[k..])
    requires segs[0].base <= segs[k].base
    ensures segs[k].base - segs[0].base <= |Flatten(segs)|
    ensures Flatten(segs[k..]) == Flatten(segs)[segs[k].base - segs[0].base..]
  {
    hide Flatten, Contiguous;
    var tail := segs[k..];
    assert segs == segs[..k] + tail;
    FlattenConcat(segs[..k], tail);
    FlattenLength(segs);
    FlattenLength(tail);
  }

  lemma {:induction false} SuffixGood(st: LogState, k: nat)
    requires Good(st) && k < |st.segments|
    ensures Good(st.(segments := st.segments[k..]))
    ensures 0 <= st.segments[k].base - Lowest(st) <= |Contents(st)|
    ensures Contents(st.(segments := st.segments[k..])) == Contents(st)[st.segments[k].base - Lowest(st)..]
  {
    hide Flatten, Contiguous, GoodSegment;
    ContiguousSuffix(st.segments, k);
  }

  /** Prefix truncation that stops short of the last record keeps a non-empty
      suffix of the segments, and with it every record above `lowest`. */
  lemma {:induction false} TruncateKeepsSuffix(st: LogState, lowest: uint64) returns (k: nat)
    requires Good(st) && After(lowest) < Next(st)
    ensures k < |st.segments| && Truncate(st, lowest).segments == st.segments[k..]
    ensures forall j :: 0 <= j < |st.segments| ==> (st.segments[j].Next() <= After(lowest) <==> j < k)
    ensures var st' := Truncate(st, lowest);
            && Good(st')
            && Next(st') == Next(st)
            && Lowest(st) <= Lowest(st') <= Lowest(st) + |Contents(st)|
            && (Lowest(st') <= After(lowest) || Lowest(st') == Lowest(st))
            && st'.segments[0].Next() > After(lowest)
            && Contents(st') == Contents(st)[Lowest(st') - Lowest(st)..]
  {
    hide Print, Marshal, Flatten;
    k := KeepIsSuffix(st.segments, After(lowest));
    SuffixGood(st, k);
  }

  /** No read above `lowest` that succeeded before truncation fails after it, or
      returns another record. */
  lemma {:induction false} TruncatePreservesReads(st: LogState, lowest: uint64, off: nat)
    requires Good(st) && After(lowest) < Next(st) && After(lowest) <= off
    ensures Read(Truncate(st, lowest), off, true) == Read(st, off, true)
    ensures Read(st, off, false).Ok? ==> Read(Truncate(st, lowest), off, false) == Read(st, off, false)
  {
    hide Print, Marshal, Keep, Read;
    var st' := Truncate(st, lowest);
    var k := TruncateKeepsSuffix(st, lowest);
    ReadStrict(st, off);
    ReadStrict(st', off);
    ContentsContiguous(st);
    ContentsContiguous(st');
    ReadAsWritten(st, off);
    ReadAsWritten(st', off);
    if Boundary(st', off) {
      var i :| 0 < i < |st'.segments| && st'.segments[i].base == off;
      assert st.segments[k + i].base == off;
    }
  }

  /** What a truncation does to the base of segment `i`: it stays inside the log,
      or becomes the lowest offset, or is gone. */
  lemma {:induction false} BaseAfterTruncate(st: LogState, lowest: uint64, i: nat)
    requires Good(st) && After(lowest) < Next(st) && 0 < i < |st.segments|
    ensures var off, end, st' := st.segments[i].base, After(lowest), Truncate(st, lowest);
            && st'.segments != []
            && (Boundary(st', off) <==> end < off)
            && (Lowest(st') == off <==> off <= end < st.segments[i].Next())
            && (off < Lowest(st') <==> st.segments[i].Next() <= end)
  {
    hide Good, Keep, GoodSegment;
    GoodParts(st);
    var off, st' := st.segments[i].base, Truncate(st, lowest);
    var k := TruncateKeepsSuffix(st, lowest);
    assert Follows(st.segments[i - 1], st.segments[i]);
    if k < i {
      assert st'.segments[i - k].base == off;
      Ordered(st.segments, k, i);
    } else if i < k {
      Ordered(st.segments, i, k);
    }
    forall j | 0 < j < |st'.segments|
      ensures st'.segments[j].base > st'.segments[0].base
    {
      Ordered(st.segments, k, k + j);
    }
    if Boundary(st', off) {
      var j :| 0 < j < |st'.segments| && st'.segments[j].base == off;
      if k + j < i {
        Ordered(st.segments, k + j, i);
      } else if i < k + j {
        Ordered(st.segments, i, k + j);
      }
    }
  }

  /** `DeleteRange(min, max)` calls `Truncate(max)`: reaching the last index, it
      empties the list of segments, whatever `min` was. */
  lemma {:induction false} TruncateEmptiesIff(st: LogState, lowest: uint64)
    requires Good(st)
    ensures Truncate(st, lowest).segments == [] <==> Next(st) <= After(lowest)
  {
    if After(lowest) < Next(st) {
      var k := KeepIsSuffix(st.segments, After(lowest));
    } else {
      KeepsNone(st.segments, After(lowest));
    }
  }

  lemma {:induction false} KeepsNone(segs: seq<SegmentState>, end: nat)
    requires Contiguous(segs) && segs != [] && Last(segs).Next() <= end
    ensures Keep(segs, end) == []
  {
    ContiguousTail(segs);
    if |segs| > 1 {
      Ordered(segs, 0, |segs| - 1);
      KeepsNone(segs[1..], end);
    }
  }

  /** Truncation keeps the segments from some `k` on, all or none of them included. */
  lemma {:induction false} KeptFrom(st: LogState, lowest: uint64) returns (k: nat)
    requires Good(st)
    ensures k <= |st.segments| && Truncate(st, lowest).segments == st.segments[k..]
    ensures forall j :: 0 <= j < |st.segments| ==> (st.segments[j].Next() <= After(lowest) <==> j < k)
    ensures if After(lowest) < Next(st) then k < |st.segments| && Good(Truncate(st, lowest)) else k == |st.segments|
  {
    hide Good, Keep;
    if After(lowest) < Next(st) {
      k := TruncateKeepsSuffix(st, lowest);
    } else {
      k := |st.segments|;
      GoodParts(st);
      KeepsNone(st.segments, After(lowest));
      forall j | 0 <= j < k - 1
        ensures st.segments[j].Next() <= After(lowest)
      {
        Ordered(st.segments, j, k - 1);
      }
    }
  }
}
