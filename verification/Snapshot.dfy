// A snapshot stream read in pieces of any size while appends go on: the stores
// are captured by `Log.Reader`, then each is read to its end, and every read
// and every append takes the lock on its own.
module Snapshot {
  import opened Bytes
  import opened Wrappers
  import opened Codec
  import opened Framing
  import opened LogSpec
  import opened LogTheorems
  import opened Restoring

  datatype Step = DoAppend(record: Record) | DoRead(size: nat)

  /** The log, the number of stores captured, the one being read, the position in it, the bytes so far. */
  datatype State = State(log: LogState, captured: nat, current: nat, off: nat, out: bytes) {
    predicate Done() {
      current == captured
    }
  }

  function Start(log: LogState): State {
    State(log, |log.segments|, 0, 0, [])
  }

  /** originReader.Read for `n` bytes; fewer come with io.EOF, and io.MultiReader moves on. */
  function ReadStep(s: State, n: nat): State
    requires s.current < |s.log.segments|
  {
    var store := Print(s.log.segments[s.current].records);
    if s.off + n <= |store| then
      s.(off := s.off + n, out := s.out + store[s.off..s.off + n])
    else
      s.(current := s.current + 1, off := 0, out := s.out + if s.off <= |store| then store[s.off..] else [])
  }

  /** A read that gives `p` and leaves `left` of the store is the step. */
  lemma {:induction false} ReadIs(s: State, n: nat, p: bytes, eof: bool, left: bytes)
    requires s.current < |s.log.segments| && s.off <= |Print(s.log.segments[s.current].records)|
    requires Print(s.log.segments[s.current].records)[s.off..] == p + left
    requires |p| <= n && (eof <==> |p| < n) && (eof ==> left == [])
    ensures ReadStep(s, n) == if eof then s.(current := s.current + 1, off := 0, out := s.out + p)
                              else s.(off := s.off + |p|, out := s.out + p)
  {
    hide Print;
    var store := Print(s.log.segments[s.current].records);
    assert |store| - s.off == |p| + |left|;
    assert store[s.off..][..|p|] == p;
  }

  predicate Enabled(s: State, step: Step) {
    && s.log.segments != []
    && match step
       case DoAppend(_) => Next(s.log) + 1 < TWO_64
       case DoRead(_) => s.current < s.captured <= |s.log.segments|
  }

  function Do(s: State, step: Step): State
    requires Enabled(s, step)
  {
    match step
    case DoAppend(r) => s.(log := Append(s.log, r))
    case DoRead(n) => ReadStep(s, n)
  }

  predicate Legal(s: State, steps: seq<Step>)
    decreases |steps|
  {
    steps == [] || (Enabled(s, steps[0]) && Legal(Do(s, steps[0]), steps[1..]))
  }

  function Run(s: State, steps: seq<Step>): State
    requires Legal(s, steps)
    decreases |steps|
  {
    if steps == [] then s else Run(Do(s, steps[0]), steps[1..])
  }

  // ---------- what stays true

  /** `log` has grown from `start` by appends alone. */
  ghost predicate Grown(start: LogState, log: LogState) {
    && Good(start) && Good(log) && 0 < |start.segments| <= |log.segments|
    && (forall i :: 0 <= i < |start.segments| - 1 ==> log.segments[i] == start.segments[i])
    && var last := |start.segments| - 1;
       && log.segments[last].base == start.segments[last].base
       && start.segments[last].records <= log.segments[last].records
  }

  ghost predicate Inv(start: LogState, s: State) {
    && Grown(start, s.log) && s.captured == |start.segments| && s.current <= s.captured
    && if s.current < s.captured then
         var store := Print(s.log.segments[s.current].records);
         s.off <= |store| && s.out == Print(Flatten(s.log.segments[..s.current])) + store[..s.off]
       else
         exists m: nat :: CompleteTo(start, s, m)
  }

  /** The stream ends after the first `m` records of the last captured store,
      which are at least those it held at the start. */
  ghost predicate CompleteTo(start: LogState, s: State, m: nat)
    requires 0 < |start.segments| <= |s.log.segments|
  {
    var last := |start.segments| - 1;
    && |start.segments[last].records| <= m <= |s.log.segments[last].records|
    && s.out == Print(Flatten(s.log.segments[..last]) + s.log.segments[last].records[..m])
  }

  lemma {:induction false} AppendGrows(log: LogState, r: Record)
    requires Good(log) && Next(log) + 1 < TWO_64
    ensures Grown(log, Append(log, r))
  {
    hide Print, Marshal, IsMaxed, Good, AppendRecord;
    AppendGood(log, r);
    GoodParts(log);
    var last := Last(log.segments);
    if IsMaxed(last, log.limits) {
      var added := AppendRecord(SegmentState(Highest(log) + 1, []), r);
      assert Append(log, r).segments == log.segments + [added];
    } else {
      RecordsGrow(last, r);
      assert Append(log, r).segments == log.segments[|log.segments| - 1 := AppendRecord(last, r)];
    }
  }

  lemma {:induction false} RecordsGrow(s: SegmentState, r: Record)
    requires s.Next() < TWO_64
    ensures AppendRecord(s, r).base == s.base && s.records <= AppendRecord(s, r).records
  {
  }

  lemma {:induction false} StoreGrows(log: LogState, r: Record, i: nat)
    requires Good(log) && Next(log) + 1 < TWO_64 && i < |log.segments|
    ensures i < |Append(log, r).segments|
    ensures |Print(log.segments[i].records)| <= |Print(Append(log, r).segments[i].records)|
  {
    hide Good, Append, Print;
    AppendGrows(log, r);
    PrintPrefix(log.segments[i].records, Append(log, r).segments[i].records);
  }

  lemma {:induction false} GrownTrans(a: LogState, b: LogState, c: LogState)
    requires Grown(a, b) && Grown(b, c)
    ensures Grown(a, c)
  {
    hide Good;
    var n := |a.segments|;
    GoodGrown(a, b);
    assert a.segments[n - 1].records <= b.segments[n - 1].records <= c.segments[n - 1].records;
  }

  lemma {:induction false} PrintPrefix(a: seq<Record>, b: seq<Record>)
    requires a <= b
    ensures Print(a) <= Print(b)
  {
    hide Print;
    PrintSplit(b, |a|);
    assert b[..|a|] == a;
  }

  lemma {:induction false} AppendKeeps(start: LogState, s: State, r: Record)
    requires Inv(start, s) && Enabled(s, DoAppend(r))
    ensures Inv(start, Do(s, DoAppend(r)))
  {
    hide Print, Good, Flatten, GoodSegment;
    var s' := Do(s, DoAppend(r));
    GoodGrown(start, s.log);
    AppendGrows(s.log, r);
    GrownTrans(start, s.log, s'.log);
    var n := |start.segments|;
    assert s'.log.segments[..n - 1] == s.log.segments[..n - 1];
    if s.current < n {
      assert s'.log.segments[..s.current] == s.log.segments[..s.current];
      PrintPrefix(s.log.segments[s.current].records, s'.log.segments[s.current].records);
    } else {
      var m: nat :| CompleteTo(start, s, m);
      assert s'.log.segments[n - 1].records[..m] == s.log.segments[n - 1].records[..m];
      assert CompleteTo(start, s', m);
    }
  }

  lemma {:induction false} GoodGrown(start: LogState, log: LogState)
    requires Grown(start, log)
    ensures 0 < |start.segments| <= |log.segments| && Good(log)
  {
  }

  lemma {:induction false} ReadKeeps(start: LogState, s: State, n: nat)
    requires Inv(start, s) && Enabled(s, DoRead(n))
    ensures Inv(start, Do(s, DoRead(n)))
  {
    hide Print, Good, Grown, Flatten;
    GoodGrown(start, s.log);
    var segs, i := s.log.segments, s.current;
    var store := Print(segs[i].records);
    var before := Print(Flatten(segs[..i]));
    var s' := ReadStep(s, n);
    if s.off + n <= |store| {
      assert store[..s.off] + store[s.off..s.off + n] == store[..s.off + n];
      assert s'.out == before + store[..s.off + n];
    } else {
      assert s'.out == before + store by {
        assert store[..s.off] + store[s.off..] == store;
        assert s'.out == (before + store[..s.off]) + store[s.off..];
      }
      PrintConcat(Flatten(segs[..i]), segs[i].records);
      if i + 1 < s.captured {
        FlattenLast(segs[..i + 1]);
        assert segs[..i + 1][..i] == segs[..i];
        assert s'.out == Print(Flatten(segs[..i + 1])) + Print(segs[i + 1].records)[..0];
      } else {
        LastStoreLength(start, s);
        assert segs[i].records[..|segs[i].records|] == segs[i].records;
        assert CompleteTo(start, s', |segs[i].records|);
      }
    }
  }

  lemma {:induction false} LastStoreLength(start: LogState, s: State)
    requires Grown(start, s.log)
    ensures |start.segments[|start.segments| - 1].records| <= |s.log.segments[|start.segments| - 1].records|
  {
  }

  lemma {:induction false} RunKeeps(start: LogState, s: State, steps: seq<Step>)
    requires Inv(start, s) && Legal(s, steps)
    ensures Inv(start, Run(s, steps))
    decreases |steps|
  {
    hide Inv, Do;
    if steps != [] {
      match steps[0] {
        case DoAppend(r) => AppendKeeps(start, s, r);
        case DoRead(n) => ReadKeeps(start, s, n);
      }
      RunKeeps(start, Do(s, steps[0]), steps[1..]);
    }
  }

  /** The records of the DoAppend steps. */
  function Appended(steps: seq<Step>): seq<Record> {
    if steps == [] then [] else (if steps[0].DoAppend? then [steps[0].record] else []) + Appended(steps[1..])
  }

  /** A run appends what its DoAppend steps carry, in order, and the reads change nothing. */
  lemma {:induction false} RunAppends(s: State, steps: seq<Step>)
    requires Good(s.log) && Legal(s, steps)
    ensures Good(Run(s, steps).log) && Next(s.log) + |Appended(steps)| < TWO_64
    ensures Contents(Run(s, steps).log) == Contents(s.log) + Restamp(Appended(steps), Next(s.log))
    ensures Next(Run(s, steps).log) == Next(s.log) + |Appended(steps)|
    decreases |steps|
  {
    hide Good, Contents, Append, Restamp, ReadStep, Appended, Legal, Run, Stamp;
    AppendedFirst(steps);
    if steps == [] {
      RunNothing(s);
      NothingStamped(Next(s.log));
      Regroup(Contents(s.log), [], []);
    } else {
      RunOnce(s, steps);
      var s' := Do(s, steps[0]);
      if steps[0].DoAppend? {
        AppendAdds(s.log, steps[0].record);
        RunAppends(s', steps[1..]);
        StampedFirst(steps[0].record, Appended(steps[1..]), Next(s.log));
        Regroup(Contents(s.log), [Stamp(steps[0].record, Next(s.log))], Restamp(Appended(steps[1..]), Next(s'.log)));
      } else {
        ReadsOnly(s, steps[0].size);
        RunAppends(s', steps[1..]);
      }
    }
  }

  lemma {:induction false} AppendedFirst(steps: seq<Step>)
    ensures steps == [] ==> Appended(steps) == []
    ensures steps != [] && steps[0].DoRead? ==> Appended(steps) == Appended(steps[1..])
    ensures steps != [] && steps[0].DoAppend? ==> Appended(steps) == [steps[0].record] + Appended(steps[1..])
  {
    if steps != [] && steps[0].DoRead? {
      assert Appended(steps) == Appended(steps[1..]);
    }
  }

  lemma {:induction false} RunNothing(s: State)
    ensures Legal(s, []) && Run(s, []) == s
  {
  }

  lemma {:induction false} RunOnce(s: State, steps: seq<Step>)
    requires steps != [] && Legal(s, steps)
    ensures Enabled(s, steps[0]) && Legal(Do(s, steps[0]), steps[1..])
    ensures Run(s, steps) == Run(Do(s, steps[0]), steps[1..])
    ensures steps[0].DoAppend? ==> Next(s.log) + 1 < TWO_64
  {
    hide Do;
  }

  lemma {:induction false} ReadsOnly(s: State, n: nat)
    requires Enabled(s, DoRead(n))
    ensures Do(s, DoRead(n)).log == s.log
  {
  }

  lemma {:induction false} NothingStamped(first: nat)
    requires first < TWO_64
    ensures Restamp([], first) == []
  {
  }

  lemma {:induction false} StampedFirst(r: Record, rest: seq<Record>, first: nat)
    requires first + |rest| + 1 < TWO_64
    ensures Restamp([r] + rest, first) == [Stamp(r, first)] + Restamp(rest, first + 1)
  {
    hide Restamp, Stamp;
    var whole, parts := Restamp([r] + rest, first), [Stamp(r, first)] + Restamp(rest, first + 1);
    assert |whole| == |parts|;
    forall k | 0 <= k < |whole|
      ensures whole[k] == parts[k]
    {
      if k > 0 {
        assert whole[k] == Stamp(rest[k - 1], first + 1 + (k - 1));
      }
    }
  }

  /** A read of `n` bytes moves on by `n`, or ends the store with what was left of it. */
  lemma {:induction false} ReadMoves(start: LogState, s: State, n: nat)
    requires Inv(start, s) && Enabled(s, DoRead(n))
    ensures var s', left := Do(s, DoRead(n)), |Print(s.log.segments[s.current].records)| - s.off;
            && s'.log == s.log && s'.captured == s.captured && s.out <= s'.out
            && if n <= left then s'.current == s.current && s'.off == s.off + n && |s'.out| == |s.out| + n
               else s'.current == s.current + 1 && s'.off == 0 && |s'.out| == |s.out| + left
  {
    hide Grown, Print, Flatten;
  }

  /** How many reads of one byte or more are enough to go on from `off` in the store
      `current`: one for each byte that is left and one for the end of each store. */
  function Work(log: LogState, captured: nat, current: nat, off: nat): nat
    requires current <= captured <= |log.segments|
    decreases captured - current
  {
    if current == captured then 0
    else
      var size := |Print(log.segments[current].records)|;
      (if off <= size then size - off else 0) + 1 + Work(log, captured, current + 1, 0)
  }

  /** With nobody appending, a snapshot is read to its end by that many reads. */
  lemma {:induction false} ReadsFinish(start: LogState, s: State, pieces: seq<Step>)
    requires Inv(start, s) && s.captured <= |s.log.segments|
    requires forall i :: 0 <= i < |pieces| ==> pieces[i].DoRead? && pieces[i].size > 0
    requires |pieces| >= Work(s.log, s.captured, s.current, s.off)
    ensures exists k :: 0 <= k <= |pieces| && Legal(s, pieces[..k]) && Run(s, pieces[..k]).Done()
    decreases |pieces|
  {
    hide Inv, Print, Work;
    if s.Done() {
      assert pieces[..0] == [] && Legal(s, pieces[..0]) && Run(s, pieces[..0]).Done();
    } else {
      WorkShrinks(start, s);
      var n, s' := pieces[0].size, Do(s, pieces[0]);
      WorkFalls(start, s, n);
      ReadKeeps(start, s, n);
      ReadsFinish(start, s', pieces[1..]);
      var k :| 0 <= k <= |pieces[1..]| && Legal(s', pieces[1..][..k]) && Run(s', pieces[1..][..k]).Done();
      assert pieces[..k + 1][0] == pieces[0] && pieces[..k + 1][1..] == pieces[1..][..k];
      assert Legal(s, pieces[..k + 1]) && Run(s, pieces[..k + 1]).Done();
    }
  }

  lemma {:induction false} WorkShrinks(start: LogState, s: State)
    requires Inv(start, s) && !s.Done() && s.captured <= |s.log.segments|
    ensures 0 < Work(s.log, s.captured, s.current, s.off)
    ensures forall n: nat :: Enabled(s, DoRead(n))
  {
    hide Print;
  }

  lemma {:induction false} WorkFalls(start: LogState, s: State, n: nat)
    requires Inv(start, s) && Enabled(s, DoRead(n)) && n > 0
    ensures var s' := Do(s, DoRead(n));
            && s'.current <= s'.captured <= |s'.log.segments|
            && Work(s'.log, s'.captured, s'.current, s'.off) < Work(s.log, s.captured, s.current, s.off)
  {
    hide Inv, Print;
    ReadMoves(start, s, n);
    OffInside(start, s);
  }

  lemma {:induction false} OffInside(start: LogState, s: State)
    requires Inv(start, s) && s.current < s.captured
    ensures s.captured <= |s.log.segments| && s.off <= |Print(s.log.segments[s.current].records)|
  {
    hide Print;
  }

  /** The stream is the printed records up to the offset `end`, which lies between
      the next offset when the snapshot was taken and the next offset now. */
  ghost predicate SnapshotOf(start: LogState, s: State, end: nat)
    requires start.segments != [] && s.log.segments != []
  {
    var k := end - Lowest(start);
    && Lowest(s.log) == Lowest(start)
    && Next(start) <= end <= Next(s.log)
    && 0 <= k <= |Contents(s.log)|
    && s.out == Print(Contents(s.log)[..k])
    && Parse(s.out) == Parsed(Contents(s.log)[..k], None)
  }

  /** However reads and appends interleave, a finished stream holds exactly the
      records from the lowest offset up to some end, and parses back to them. */
  lemma {:induction false} SnapshotConsistent(log: LogState, steps: seq<Step>)
    requires Good(log) && Legal(Start(log), steps) && Run(Start(log), steps).Done()
    ensures Good(Run(Start(log), steps).log)
    ensures exists end: nat :: SnapshotOf(log, Run(Start(log), steps), end)
  {
    StartInv(log);
    RunKeeps(log, Start(log), steps);
    EndOf(log, Run(Start(log), steps));
  }

  lemma {:induction false} StartInv(log: LogState)
    requires Good(log)
    ensures Inv(log, Start(log))
  {
    assert log.segments[..0] == [];
    assert Print(Flatten([])) == [];
  }

  lemma {:induction false} EndOf(start: LogState, s: State)
    requires Inv(start, s) && s.Done()
    ensures start.segments != [] && Good(s.log) && exists end: nat :: SnapshotOf(start, s, end)
  {
    hide Print, Parse, Good, CompleteTo, Contents, Grown;
    GoodGrown(start, s.log);
    var m: nat :| CompleteTo(start, s, m);
    var last := |start.segments| - 1;
    var end := s.log.segments[last].base + m;
    UpTo(start, s, m);
    ParsePrint(Contents(s.log)[..end - Lowest(start)]);
    assert SnapshotOf(start, s, end);
  }

  lemma {:induction false} UpTo(start: LogState, s: State, m: nat)
    requires Grown(start, s.log) && CompleteTo(start, s, m)
    ensures var segs, last := s.log.segments, |start.segments| - 1;
            var k := segs[last].base + m - segs[0].base;
            && Lowest(s.log) == Lowest(start) && Next(start) <= segs[last].base + m <= Next(s.log)
            && 0 <= k <= |Contents(s.log)|
            && s.out == Print(Contents(s.log)[..k])
  {
    hide Print, GoodSegment;
    var segs, last := s.log.segments, |start.segments| - 1;
    PrefixUpTo(segs, last, m);
    if last < |segs| - 1 {
      Ordered(segs, last, |segs| - 1);
    }
  }

  lemma {:induction false} PrefixUpTo(segs: seq<SegmentState>, i: nat, m: nat)
    requires Contiguous(segs) && i < |segs| && m <= |segs[i].records|
    ensures 0 <= segs[i].base + m - segs[0].base <= |Flatten(segs)|
    ensures Flatten(segs)[..segs[i].base + m - segs[0].base] == Flatten(segs[..i]) + segs[i].records[..m]
  {
    hide Contiguous;
    assert segs == segs[..i] + segs[i..];
    FlattenConcat(segs[..i], segs[i..]);
    ContiguousSuffix(segs, i);
  }
}
