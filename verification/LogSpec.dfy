// The segmented log on values: what `Log` in internal/log/log.go computes,
// stated on the records each segment holds.  `strict` selects the bound that
// `Log.Read` was meant to test: false is the code as written.
module LogSpec {
  import opened Bytes
  import opened Wrappers
  import opened Codec
  import opened Framing

  datatype Limits = Limits(maxStore: nat, maxIndex: nat)

  /** `maxIndex` holds an entry, and relative offsets fit the index's uint32. */
  predicate GoodLimits(l: Limits) {
    1 <= l.maxStore <= TWO_63 / 2 && ENTRY_WIDTH <= l.maxIndex < ENTRY_WIDTH * TWO_32
  }

  datatype SegmentState = SegmentState(base: nat, records: seq<Record>) {
    function Next(): nat {
      base + |records|
    }

    function StoreSize(): nat {
      |Print(records)|
    }

    function IndexSize(): nat {
      ENTRY_WIDTH * |records|
    }
  }

  datatype LogState = LogState(limits: Limits, initial: nat, segments: seq<SegmentState>)

  predicate IsMaxed(s: SegmentState, l: Limits) {
    || s.StoreSize() >= l.maxStore
    || s.IndexSize() >= l.maxIndex
    || l.maxIndex < s.IndexSize() + ENTRY_WIDTH
  }

  ghost predicate GoodSegment(s: SegmentState, l: Limits) {
    && s.Next() < TWO_64
    && s.IndexSize() <= l.maxIndex
    && s.StoreSize() < TWO_63
    && forall k :: 0 <= k < |s.records| ==> s.records[k].offset == s.base + k
  }

  predicate Follows(a: SegmentState, b: SegmentState) {
    b.base == a.Next() && a.records != [] && b.records != []
  }

  /** Each segment starts where the one before it ends, and only a sole segment is empty. */
  ghost predicate Contiguous(segs: seq<SegmentState>) {
    forall i, j :: 0 <= i < j < |segs| && j == i + 1 ==> Follows(segs[i], segs[j])
  }

  ghost predicate Good(st: LogState)
    ensures Good(st) ==> st.segments != [] && Last(st.segments).Next() < TWO_64 && GoodLimits(st.limits)
  {
    && GoodLimits(st.limits)
    && st.segments != []
    && (forall i :: 0 <= i < |st.segments| ==> GoodSegment(st.segments[i], st.limits))
    && Contiguous(st.segments)
  }

  function Last<T>(s: seq<T>): T
    requires s != []
  {
    s[|s| - 1]
  }

  function Lowest(st: LogState): nat
    requires st.segments != []
  {
    st.segments[0].base
  }

  function Next(st: LogState): nat
    requires st.segments != []
  {
    Last(st.segments).Next()
  }

  function HighestBelow(next: nat): nat {
    if next == 0 then 0 else next - 1
  }

  function Highest(st: LogState): nat
    requires st.segments != []
  {
    HighestBelow(Next(st))
  }

  function Flatten(segs: seq<SegmentState>): seq<Record> {
    if segs == [] then [] else segs[0].records + Flatten(segs[1..])
  }

  /** The records in the log, in order of offset. */
  function Contents(st: LogState): seq<Record> {
    Flatten(st.segments)
  }

  function Fresh(limits: Limits, initial: nat): LogState {
    LogState(limits, initial, [SegmentState(initial, [])])
  }

  // ---------- Append

  function AppendRecord(s: SegmentState, r: Record): SegmentState
    requires s.Next() < TWO_64
  {
    s.(records := s.records + [Stamp(r, s.Next())])
  }

  lemma {:induction false} AppendRecordGood(s: SegmentState, r: Record, l: Limits)
    requires GoodSegment(s, l) && s.Next() + 1 < TWO_64
    requires s.IndexSize() + ENTRY_WIDTH <= l.maxIndex && s.StoreSize() <= TWO_63 / 2
    ensures GoodSegment(AppendRecord(s, r), l)
  {
    hide Print, Marshal;
    PrintAppend(s.records, Stamp(r, s.Next()));
    MarshalSize(Stamp(r, s.Next()));
  }

  function Rotate(segs: seq<SegmentState>, l: Limits, base: nat): seq<SegmentState>
    requires segs != []
  {
    if IsMaxed(Last(segs), l) then segs + [SegmentState(base, [])] else segs
  }

  function AppendLast(segs: seq<SegmentState>, r: Record): seq<SegmentState>
    requires segs != [] && Last(segs).Next() < TWO_64
  {
    segs[|segs| - 1 := AppendRecord(Last(segs), r)]
  }

  /** The locked half of Append, given the highest offset read before the lock. */
  function AppendAfter(st: LogState, r: Record, highest: nat): LogState
    requires st.segments != [] && Next(st) < TWO_64 && highest + 1 < TWO_64
  {
    st.(segments := AppendLast(Rotate(st.segments, st.limits, highest + 1), r))
  }

  function Append(st: LogState, r: Record): LogState
    requires st.segments != [] && Next(st) + 1 < TWO_64
  {
    AppendAfter(st, r, Highest(st))
  }

  // ---------- Read

  predicate Covers(s: SegmentState, off: nat, strict: bool) {
    s.base <= off && if strict then off < s.Next() else off <= s.Next()
  }

  /** The first segment that covers `off`, or the number of segments. */
  function Find(segs: seq<SegmentState>, off: nat, strict: bool): (i: nat)
    ensures i <= |segs|
    ensures i < |segs| ==> Covers(segs[i], off, strict)
    ensures forall j :: 0 <= j < i ==> !Covers(segs[j], off, strict)
  {
    if segs == [] || Covers(segs[0], off, strict) then 0 else 1 + Find(segs[1..], off, strict)
  }

  /** The store refuses an empty payload, so a record that marshals to nothing is lost to readers. */
  function Fetch(r: Record): Result<Record> {
    if Marshal(r) == [] then Err(InvalidRecordSize) else Ok(r)
  }

  function Read(st: LogState, off: nat, strict: bool): Result<Record> {
    var i := Find(st.segments, off, strict);
    if i == |st.segments| || st.segments[i].Next() <= off then Err(OffsetOutOfRange(off))
    else Fetch(st.segments[i].records[off - st.segments[i].base])
  }

  // ---------- Truncate, Reset, Reader

  function Keep(segs: seq<SegmentState>, end: nat): seq<SegmentState> {
    if segs == [] then []
    else if segs[0].Next() <= end then Keep(segs[1..], end)
    else [segs[0]] + Keep(segs[1..], end)
  }

  /** `lowest + 1` as a uint64, which is 0 for the largest. */
  function After(lowest: uint64): nat {
    (lowest + 1) % TWO_64
  }

  function Truncate(st: LogState, lowest: uint64): LogState {
    st.(segments := Keep(st.segments, After(lowest)))
  }

  /** The intended Reset: one empty segment at the configured initial offset. */
  function Reset(st: LogState, initial: nat): LogState {
    Fresh(st.limits, initial)
  }

  /** The bytes of all stores in order. */
  function Stream(segs: seq<SegmentState>): bytes {
    if segs == [] then [] else Print(segs[0].records) + Stream(segs[1..])
  }
}
