// `Log.Append` under several writers.  It reads the highest offset before it
// takes the write lock, so an append is two steps, and others may come between.
module Writers {
  import opened Bytes
  import opened Codec
  import opened Framing
  import opened LogSpec
  import opened LogTheorems

  datatype State = State(log: LogState, pending: map<nat, nat>)

  /** Writer `w` reads the highest offset; later it appends under the lock. */
  datatype Step = Begin(writer: nat) | Finish(writer: nat, record: Record)

  predicate Enabled(s: State, step: Step) {
    && s.log.segments != [] && Next(s.log) + 1 < TWO_64
    && match step
       case Begin(_) => true
       case Finish(w, _) => w in s.pending && s.pending[w] + 1 < TWO_64
  }

  function Do(s: State, step: Step): State
    requires Enabled(s, step)
  {
    match step
    case Begin(w) => s.(pending := s.pending[w := Highest(s.log)])
    case Finish(w, r) => State(AppendAfter(s.log, r, s.pending[w]), s.pending - {w})
  }

  /** The guard under which a finishing append is harmless. */
  predicate Timely(s: State, step: Step)
    requires Enabled(s, step)
  {
    step.Finish? ==> InStep(s.log, s.pending[step.writer])
  }

  ghost predicate Inv(s: State) {
    Good(s.log) && forall w :: w in s.pending ==> s.pending[w] <= Highest(s.log)
  }

  /** The locked half of an append keeps the log contiguous, and appends the record
      under the next offset, exactly when the active segment has room or the
      offset read before the lock is still the highest. */
  lemma {:induction false} FinishExact(log: LogState, r: Record, highest: nat)
    requires Good(log) && Next(log) + 1 < TWO_64 && highest <= Highest(log)
    ensures InStep(log, highest) ==> var log' := AppendAfter(log, r, highest);
              Good(log') && Lowest(log') == Lowest(log) && Next(log') == Next(log) + 1 &&
              Contents(log') == Contents(log) + [Stamp(r, Next(log))]
    ensures !InStep(log, highest) ==> !Contiguous(AppendAfter(log, r, highest).segments)
  {
    hide Good, Contents, Contiguous, AppendRecord, IsMaxed, Append;
    if InStep(log, highest) {
      InStepIsAppend(log, r, highest);
      AppendAdds(log, r);
    } else {
      var segs := AppendAfter(log, r, highest).segments;
      var n := |log.segments|;
      BaseKept(SegmentState(highest + 1, []), r);
      assert segs[n - 1] == log.segments[n - 1];
      StaleRotation(segs, n - 1);
    }
  }

  lemma {:induction false} BaseKept(s: SegmentState, r: Record)
    requires s.Next() < TWO_64
    ensures AppendRecord(s, r).base == s.base
  {
  }

  // ---------- runs

  predicate Legal(s: State, steps: seq<Step>)
    decreases |steps|
  {
    steps == [] || (Enabled(s, steps[0]) && Timely(s, steps[0]) && Legal(Do(s, steps[0]), steps[1..]))
  }

  function Run(s: State, steps: seq<Step>): State
    requires Legal(s, steps)
    decreases |steps|
  {
    if steps == [] then s else Run(Do(s, steps[0]), steps[1..])
  }

  /** The records finished in a run, stamped from offset `next` on. */
  function Finished(steps: seq<Step>, next: nat): seq<Record>
    requires next + |steps| < TWO_64
    decreases |steps|
  {
    if steps == [] then []
    else match steps[0]
      case Begin(_) => Finished(steps[1..], next)
      case Finish(_, r) => [Stamp(r, next)] + Finished(steps[1..], next + 1)
  }

  lemma {:induction false} StepKeeps(s: State, step: Step)
    requires Inv(s) && Enabled(s, step) && Timely(s, step)
    ensures Inv(Do(s, step)) && Lowest(Do(s, step).log) == Lowest(s.log)
    ensures Next(Do(s, step).log) == Next(s.log) + if step.Finish? then 1 else 0
    ensures Contents(Do(s, step).log) == Contents(s.log)
            + if step.Finish? then [Stamp(step.record, Next(s.log))] else []
  {
    hide Good, Contents, Contiguous, AppendAfter, InStep;
    match step {
      case Begin(_) => assert Contents(s.log) + [] == Contents(s.log);
      case Finish(w, r) => FinishExact(s.log, r, s.pending[w]);
    }
  }

  /** Any number of writers, in any interleaving whose finishing steps are timely,
      leave the log contiguous with every record under its own offset. */
  lemma {:induction false} TimelyRunsSafe(s: State, steps: seq<Step>)
    requires Inv(s) && Legal(s, steps) && Next(s.log) + |steps| < TWO_64
    ensures Inv(Run(s, steps)) && Lowest(Run(s, steps).log) == Lowest(s.log)
    ensures Contents(Run(s, steps).log) == Contents(s.log) + Finished(steps, Next(s.log))
    decreases |steps|
  {
    hide Inv, Do, Contents, Enabled, Timely;
    if steps == [] {
      assert Contents(s.log) + [] == Contents(s.log);
    } else {
      StepKeeps(s, steps[0]);
      var s' := Do(s, steps[0]);
      InvNonEmpty(s);
      InvNonEmpty(s');
      TimelyRunsSafe(s', steps[1..]);
    }
  }

  lemma {:induction false} InvNonEmpty(s: State)
    requires Inv(s)
    ensures s.log.segments != []
  {
  }

  /** Enabled throughout, timely or not. */
  predicate Possible(s: State, steps: seq<Step>)
    decreases |steps|
  {
    steps == [] || (Enabled(s, steps[0]) && Possible(Do(s, steps[0]), steps[1..]))
  }

  /** A single writer is always timely. */
  lemma {:induction false} OneWriterTimely(s: State, steps: seq<Step>, w: nat)
    requires Inv(s) && Possible(s, steps)
    requires w in s.pending ==> s.pending[w] == Highest(s.log)
    requires forall i :: 0 <= i < |steps| ==> steps[i].writer == w
    ensures Legal(s, steps)
    decreases |steps|
  {
    hide Good, Contents, AppendAfter, IsMaxed;
    if steps != [] {
      if steps[0].Finish? {
        HighestInStep(s.log);
      }
      StepKeeps(s, steps[0]);
      OneWriterTimely(Do(s, steps[0]), steps[1..], w);
    }
  }

  lemma {:induction false} HighestInStep(log: LogState)
    requires Good(log)
    ensures InStep(log, Highest(log))
  {
    if Last(log.segments).records == [] {
      EmptySegmentHasRoom(Last(log.segments), log.limits);
    }
  }

  /** Two writers: 1 reads the highest offset, 0 appends and fills the segment's
      two-entry index, and 1 then rotates on a base that is already taken. */
  lemma {:induction false} TwoWritersCollide(r: Record)
    ensures var limits := Limits(TWO_63 / 2, 2 * ENTRY_WIDTH);
            var steps := [Begin(0), Finish(0, r), Begin(1), Begin(0), Finish(0, r), Finish(1, r)];
            var s := State(Fresh(limits, 0), map[]);
            && Inv(s) && Possible(s, steps)
            && var log := Done(s, steps).log;
               && |log.segments| == 2
               && log.segments[0].records == [Stamp(r, 0), Stamp(r, 1)]
               && log.segments[1].records == [Stamp(r, 1)]
  {
    hide Print, Marshal, IsMaxed, AppendAfter, GoodSegment;
    var limits := Limits(TWO_63 / 2, 2 * ENTRY_WIDTH);
    FreshGood(limits, 0);
    var s0 := State(Fresh(limits, 0), map[]);
    var r0, r1 := Stamp(r, 0), Stamp(r, 1);
    TwoEntries([], limits);
    TwoEntries([r0], limits);
    TwoEntries([r0, r1], limits);
    assert [] + [r0] == [r0] && [r0] + [r1] == [r0, r1] && [] + [r1] == [r1];
    var s1 := Do(s0, Begin(0));
    AppendSole(s1.log, r, 0);
    var s2 := Do(s1, Finish(0, r));
    var s3 := Do(s2, Begin(1));
    var s4 := Do(s3, Begin(0));
    AppendSole(s4.log, r, 0);
    var s5 := Do(s4, Finish(0, r));
    RotateSole(s5.log, r, 0);
    Steps6(s0, [Begin(0), Finish(0, r), Begin(1), Begin(0), Finish(0, r), Finish(1, r)], s1, s2, s3, s4, s5);
  }

  lemma {:induction false} TwoEntries(rs: seq<Record>, l: Limits)
    requires |rs| <= 2 && l == Limits(TWO_63 / 2, 2 * ENTRY_WIDTH)
    ensures IsMaxed(SegmentState(0, rs), l) <==> |rs| == 2
  {
    hide Print;
    Small(rs);
  }

  lemma {:induction false} AppendSole(log: LogState, r: Record, highest: nat)
    requires |log.segments| == 1 && !IsMaxed(log.segments[0], log.limits) && Next(log) < TWO_64 && highest + 1 < TWO_64
    ensures var s := log.segments[0];
            AppendAfter(log, r, highest) == log.(segments := [SegmentState(s.base, s.records + [Stamp(r, s.Next())])])
  {
    hide IsMaxed;
  }

  lemma {:induction false} RotateSole(log: LogState, r: Record, highest: nat)
    requires |log.segments| == 1 && IsMaxed(log.segments[0], log.limits) && Next(log) < TWO_64 && highest + 1 < TWO_64
    ensures AppendAfter(log, r, highest) ==
            log.(segments := [log.segments[0], SegmentState(highest + 1, [] + [Stamp(r, highest + 1)])])
  {
    hide IsMaxed;
  }

  function Done(s: State, steps: seq<Step>): State
    requires Possible(s, steps)
    decreases |steps|
  {
    if steps == [] then s else Done(Do(s, steps[0]), steps[1..])
  }

  lemma {:induction false} Steps6(s0: State, steps: seq<Step>, s1: State, s2: State, s3: State, s4: State, s5: State)
    requires |steps| == 6
    requires Enabled(s0, steps[0]) && s1 == Do(s0, steps[0])
    requires Enabled(s1, steps[1]) && s2 == Do(s1, steps[1])
    requires Enabled(s2, steps[2]) && s3 == Do(s2, steps[2])
    requires Enabled(s3, steps[3]) && s4 == Do(s3, steps[3])
    requires Enabled(s4, steps[4]) && s5 == Do(s4, steps[4])
    requires Enabled(s5, steps[5])
    ensures Possible(s0, steps) && Done(s0, steps) == Do(s5, steps[5])
  {
    hide Enabled, Do;
    assert Possible(s5, steps[5..]) && Done(s5, steps[5..]) == Do(s5, steps[5]) by { assert steps[5..][1..] == []; }
    assert Possible(s4, steps[4..]) && Done(s4, steps[4..]) == Done(s5, steps[5..]) by {
      assert steps[4..][1..] == steps[5..];
    }
    assert Possible(s3, steps[3..]) && Done(s3, steps[3..]) == Done(s4, steps[4..]) by {
      assert steps[3..][1..] == steps[4..];
    }
    assert Possible(s2, steps[2..]) && Done(s2, steps[2..]) == Done(s3, steps[3..]) by {
      assert steps[2..][1..] == steps[3..];
    }
    assert Possible(s1, steps[1..]) && Done(s1, steps[1..]) == Done(s2, steps[2..]) by {
      assert steps[1..][1..] == steps[2..];
    }
  }

  /** A few records are far below the largest store limit. */
  lemma {:induction false} Small(rs: seq<Record>)
    requires |rs| <= 2
    ensures |Print(rs)| <= |rs| * 0x2_0000_0000
  {
    if rs != [] {
      hide Marshal;
      MarshalSize(rs[0]);
      Small(rs[1..]);
    }
  }
}
