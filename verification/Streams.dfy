// The gRPC streams over the log (internal/server/server.go): a consumer's cursor
// over a log that others append to and truncate.
module Streams {
  import opened Bytes
  import opened Codec
  import opened LogSpec
  import opened LogTheorems
  import R = Refinement

  /** Other clients act on the log; the stream polls; the client goes away. */
  datatype Event = Other(op: R.Op) | Poll | Cancel

  datatype Stream = Stream(log: LogState, cursor: nat, sent: seq<Record>, open: bool)

  /** One turn of ConsumeStream's loop: an offset out of range is tried again, any
      other error ends the stream. */
  function PollOnce(s: Stream, strict: bool): Stream
    requires s.log.segments != []
  {
    match Read(s.log, s.cursor, strict)
    case Ok(r) => s.(sent := s.sent + [r], cursor := s.cursor + 1)
    case Err(OffsetOutOfRange(_)) => s
    case Err(_) => s.(open := false)
  }

  predicate Enabled(s: Stream, e: Event) {
    s.log.segments != [] && (e.Other? ==> R.Enabled(s.log, e.op))
  }

  function Do(s: Stream, e: Event, strict: bool): Stream
    requires Enabled(s, e)
  {
    match e
    case Other(op) => s.(log := R.Do(s.log, op, strict).0)
    case Poll => if s.open then PollOnce(s, strict) else s
    case Cancel => s.(open := false)
  }

  predicate Legal(s: Stream, events: seq<Event>, strict: bool)
    decreases |events|
  {
    events == [] || (Enabled(s, events[0]) && Legal(Do(s, events[0], strict), events[1..], strict))
  }

  function Run(s: Stream, events: seq<Event>, strict: bool): Stream
    requires Legal(s, events, strict)
    decreases |events|
  {
    if events == [] then s else Run(Do(s, events[0], strict), events[1..], strict)
  }

  /** A run, unfolded once. */
  lemma {:induction false} RunFirst(s: Stream, events: seq<Event>, strict: bool)
    requires events != [] && Legal(s, events, strict)
    ensures Enabled(s, events[0]) && Legal(Do(s, events[0], strict), events[1..], strict)
    ensures Run(s, events, strict) == Run(Do(s, events[0], strict), events[1..], strict)
  {
    hide Enabled, Do;
  }

  lemma {:induction false} RunNone(s: Stream, strict: bool)
    ensures Legal(s, [], strict) && Run(s, [], strict) == s
  {
  }

  function FlatRun(flat: seq<Record>, events: seq<Event>): seq<Record>
    requires |flat| + |events| < TWO_64
    decreases |events|
  {
    if events == [] then flat
    else FlatRun(if events[0].Other? then R.DoFlat(flat, events[0].op) else flat, events[1..])
  }

  /** The flat log's records at offsets start, ..., start + n - 1. */
  function Expected(flat: seq<Record>, initial: nat, start: nat, n: nat): (rs: seq<Record>)
    requires initial <= start && start + n <= initial + |flat| < TWO_64
    ensures |rs| == n && forall k :: 0 <= k < n ==> rs[k] == Stamp(flat[start - initial + k], start + k)
  {
    seq(n, k requires 0 <= k < n => Stamp(flat[start - initial + k], start + k))
  }

  /** What was sent is the flat log's records from `start` on, each once and in order. */
  ghost predicate SentFrom(s: Stream, flat: seq<Record>, start: nat) {
    var n := |s.sent|;
    && s.cursor == start + n
    && (n > 0 ==> && s.log.initial <= start && start + n <= s.log.initial + |flat| < TWO_64
                  && s.sent == Expected(flat, s.log.initial, start, n))
  }

  lemma {:induction false} PollSends(s: Stream, flat: seq<Record>, start: nat, strict: bool)
    requires R.Represents(s.log, flat) && SentFrom(s, flat, start)
    ensures s.log.segments != [] && SentFrom(PollOnce(s, strict), flat, start) && PollOnce(s, strict).log == s.log
  {
    hide R.Represents, Read, Boundary, Good;
    R.RepresentsBounds(s.log, flat);
    R.ReadAgrees(s.log, flat, s.cursor, strict);
    var r := Read(s.log, s.cursor, strict);
    if r.Ok? {
      assert r.value == Stamp(flat[s.cursor - s.log.initial], s.cursor);
      assert s.sent + [r.value] == Expected(flat, s.log.initial, start, |s.sent| + 1);
    }
  }

  lemma {:induction false} OtherKeeps(s: Stream, flat: seq<Record>, start: nat, op: R.Op, strict: bool)
    requires R.Represents(s.log, flat) && SentFrom(s, flat, start) && R.Enabled(s.log, op)
             && s.log.initial + |flat| + 1 < TWO_64
    ensures R.Represents(R.Do(s.log, op, strict).0, R.DoFlat(flat, op))
    ensures R.Do(s.log, op, strict).0.initial == s.log.initial
    ensures SentFrom(s.(log := R.Do(s.log, op, strict).0), R.DoFlat(flat, op), start)
  {
    hide R.Represents, R.Agrees, Read, Append, Truncate;
    R.StepRefines(s.log, flat, op, strict);
    R.RepresentsBounds(s.log, flat);
    match op {
      case AppendOp(r) => KeepsLimits(s.log, r);
      case TruncateOp(lowest) => R.InitialTruncated(s.log, lowest);
      case _ =>
    }
    if s.sent != [] {
      ExpectedKept(flat, op, s.log.initial, start, |s.sent|);
    }
  }

  lemma {:induction false} ExpectedKept(flat: seq<Record>, op: R.Op, initial: nat, start: nat, n: nat)
    requires initial <= start && start + n <= initial + |flat| && initial + |flat| + 1 < TWO_64
    ensures Expected(R.DoFlat(flat, op), initial, start, n) == Expected(flat, initial, start, n)
  {
  }

  /** Whatever the others append and truncate, the stream sends the records
      start, start + 1, ... with no gap, duplicate or reordering. */
  lemma {:induction false} ConsumeInOrder(s: Stream, flat: seq<Record>, start: nat, events: seq<Event>, strict: bool)
    requires R.Represents(s.log, flat) && SentFrom(s, flat, start)
    requires Legal(s, events, strict) && s.log.initial + |flat| + |events| < TWO_64
    ensures R.Represents(Run(s, events, strict).log, FlatRun(flat, events))
    ensures SentFrom(Run(s, events, strict), FlatRun(flat, events), start)
    decreases |events|
  {
    hide R.Represents, SentFrom, PollOnce, R.Do, R.DoFlat, R.Enabled;
    if events != [] {
      R.RepresentsBounds(s.log, flat);
      match events[0] {
        case Other(op) =>
          OtherKeeps(s, flat, start, op, strict);
          FlatGrows(flat, op);
          ConsumeInOrder(Do(s, events[0], strict), R.DoFlat(flat, op), start, events[1..], strict);
        case Poll =>
          PollSends(s, flat, start, strict);
          ConsumeInOrder(Do(s, Poll, strict), flat, start, events[1..], strict);
        case Cancel =>
          Cancelled(s, flat, start);
          ConsumeInOrder(Do(s, Cancel, strict), flat, start, events[1..], strict);
      }
    }
  }

  lemma {:induction false} FlatGrows(flat: seq<Record>, op: R.Op)
    requires |flat| < TWO_64
    ensures |R.DoFlat(flat, op)| <= |flat| + 1
  {
  }

  lemma {:induction false} Cancelled(s: Stream, flat: seq<Record>, start: nat)
    requires SentFrom(s, flat, start)
    ensures SentFrom(s.(open := false), flat, start)
  {
  }

  // ---------- how a stream ends

  lemma {:induction false} RunSplit(s: Stream, before: seq<Event>, after: seq<Event>, strict: bool)
    requires Legal(s, before + after, strict)
    ensures Legal(s, before, strict) && Legal(Run(s, before, strict), after, strict)
    ensures Run(s, before + after, strict) == Run(Run(s, before, strict), after, strict)
    decreases |before|
  {
    hide Enabled, Do;
    if before == [] {
      assert before + after == after;
    } else {
      assert (before + after)[1..] == before[1..] + after;
      RunSplit(Do(s, before[0], strict), before[1..], after, strict);
    }
  }

  /** A closed stream sends nothing and stays closed; only the log goes on. */
  lemma {:induction false} ClosedStays(s: Stream, events: seq<Event>, strict: bool)
    requires Legal(s, events, strict) && !s.open
    ensures !Run(s, events, strict).open && Run(s, events, strict).sent == s.sent
    ensures Run(s, events, strict).cursor == s.cursor
    decreases |events|
  {
    hide R.Do, R.Enabled;
    if events != [] {
      ClosedStays(Do(s, events[0], strict), events[1..], strict);
    }
  }

  /** Cancelling ends the stream: what is sent is what was sent before. */
  lemma {:induction false} CancelStops(s: Stream, before: seq<Event>, after: seq<Event>, strict: bool)
    requires Legal(s, before + [Cancel] + after, strict)
    ensures Legal(s, before, strict) && !Run(s, before + [Cancel] + after, strict).open
    ensures Run(s, before + [Cancel] + after, strict).sent == Run(s, before, strict).sent
  {
    hide Enabled, R.Do;
    RunSplit(s, before + [Cancel], after, strict);
    RunSplit(s, before, [Cancel], strict);
    var t := Run(s, before, strict);
    assert [Cancel][1..] == [] && Run(t, [Cancel], strict) == Run(Do(t, Cancel, strict), [], strict);
    ClosedStays(Run(s, before + [Cancel], strict), after, strict);
  }

  lemma {:induction false} CancelAt(s: Stream, events: seq<Event>, strict: bool)
    requires Legal(s, events, strict)
    ensures forall i :: 0 <= i < |events| && events[i] == Cancel ==>
              Legal(s, events[..i], strict) && Run(s, events, strict).sent == Run(s, events[..i], strict).sent
  {
    hide Legal, Run;
    forall i | 0 <= i < |events| && events[i] == Cancel
      ensures Legal(s, events[..i], strict) && Run(s, events, strict).sent == Run(s, events[..i], strict).sent
    {
      assert events == events[..i] + [Cancel] + events[i + 1..];
      CancelStops(s, events[..i], events[i + 1..], strict);
    }
  }

  /** The cursor is at the all-default record, which is held but cannot be read. */
  ghost predicate AtDefault(s: Stream) {
    && s.log.segments != [] && Lowest(s.log) <= s.cursor < Next(s.log)
    && s.cursor - Lowest(s.log) < |Contents(s.log)| && Contents(s.log)[s.cursor - Lowest(s.log)] == DEFAULT
  }

  /** Event `i` cancels the stream, or polls it at the all-default record. */
  ghost predicate ClosesAt(s: Stream, events: seq<Event>, i: nat, strict: bool) {
    && i < |events| && Legal(s, events[..i], strict)
    && (events[i] == Cancel || (events[i] == Poll && AtDefault(Run(s, events[..i], strict))))
  }

  lemma {:induction false} PollCloses(s: Stream, strict: bool)
    requires Good(s.log)
    ensures s.log.segments != [] && PollOnce(s, strict).open == (s.open && !AtDefault(s))
    ensures AtDefault(s) ==> PollOnce(s, strict).sent == s.sent
  {
    hide Good, Contents, Read, Boundary, Marshal;
    ReadStrict(s.log, s.cursor);
    ReadAsWritten(s.log, s.cursor);
    ContentsContiguous(s.log);
    BoundariesAboveZero(s.log);
    if Lowest(s.log) <= s.cursor < Next(s.log) {
      MarshalSize(Contents(s.log)[s.cursor - Lowest(s.log)]);
    }
  }

  lemma {:induction false} BoundariesAboveZero(st: LogState)
    requires Good(st)
    ensures !Boundary(st, 0)
  {
    hide GoodSegment;
    forall i | 0 < i < |st.segments|
      ensures 0 < st.segments[i].base
    {
      Ordered(st.segments, 0, i);
    }
  }

  /** An open stream is closed at the end exactly when some event was a cancellation
      or a poll of the all-default record; and nothing is sent from then on. */
  lemma {:induction false} ClosesWhen(s: Stream, flat: seq<Record>, start: nat, events: seq<Event>, strict: bool)
    requires R.Represents(s.log, flat) && SentFrom(s, flat, start) && s.open
    requires Legal(s, events, strict) && s.log.initial + |flat| + |events| < TWO_64
    ensures !Run(s, events, strict).open <==> exists i: nat :: ClosesAt(s, events, i, strict)
    ensures forall i: nat :: ClosesAt(s, events, i, strict) ==>
              Run(s, events, strict).sent == Run(s, events[..i], strict).sent
    decreases |events|
  {
    hide Good, R.Represents, SentFrom, R.Enabled, AtDefault, PollOnce, Legal, Run, ClosesAt, Do, FlatRun;
    if events == [] {
      RunNone(s, strict);
      NoneCloses(s, strict);
    } else {
      var n := |events| - 1;
      var init, last := events[..n], events[n];
      assert events == init + [last];
      RunSplit(s, init, [last], strict);
      ClosesWhen(s, flat, start, init, strict);
      ConsumeInOrder(s, flat, start, init, strict);
      var t := Run(s, init, strict);
      R.RepresentsBounds(t.log, FlatRun(flat, init));
      LastCloses(t, last, strict);
      forall i: nat
        ensures ClosesAt(s, events, i, strict) <==>
                if i == n then last == Cancel || (last == Poll && AtDefault(t)) else ClosesAt(s, init, i, strict)
        ensures i < n ==> events[..i] == init[..i]
      {
        ClosesBefore(s, events, i, strict);
      }
      if !t.open {
        var i: nat :| ClosesAt(s, init, i, strict);
        AtSome(s, init, strict);
        assert ClosesAt(s, events, i, strict);
      } else if !Run(s, events, strict).open {
        assert ClosesAt(s, events, n, strict);
      }
      AtSome(s, events, strict);
      forall i: nat | ClosesAt(s, events, i, strict)
        ensures Run(s, events, strict).sent == Run(s, events[..i], strict).sent && !Run(s, events, strict).open
      {
        if i < n {
          assert ClosesAt(s, init, i, strict) && events[..i] == init[..i];
        }
      }
    }
  }

  lemma {:induction false} NoneCloses(s: Stream, strict: bool)
    ensures forall i: nat :: !ClosesAt(s, [], i, strict)
  {
  }

  lemma {:induction false} AtSome(s: Stream, events: seq<Event>, strict: bool)
    ensures forall i: nat :: ClosesAt(s, events, i, strict) ==> i < |events| && Legal(s, events[..i], strict)
  {
  }

  /** Whether event `i` closes the stream is settled by the events up to it. */
  lemma {:induction false} ClosesBefore(s: Stream, events: seq<Event>, i: nat, strict: bool)
    requires events != [] && Legal(s, events[..|events| - 1], strict)
    ensures var n := |events| - 1;
            var init, last := events[..n], events[n];
            && (i < n ==> events[..i] == init[..i])
            && (ClosesAt(s, events, i, strict) <==>
                  if i == n then last == Cancel || (last == Poll && AtDefault(Run(s, init, strict)))
                  else ClosesAt(s, init, i, strict))
  {
    hide AtDefault, Legal, Run;
    var init := events[..|events| - 1];
    if i < |init| {
      assert events[..i] == init[..i] && events[i] == init[i];
    }
  }

  lemma {:induction false} LastCloses(t: Stream, e: Event, strict: bool)
    requires Good(t.log) && Legal(t, [e], strict)
    ensures var u := Run(t, [e], strict); var closes := e == Cancel || (e == Poll && AtDefault(t));
            && u.open == (t.open && !closes) && (!t.open || closes ==> u.sent == t.sent)
  {
    hide Good, AtDefault, PollOnce, R.Do, R.Enabled;
    OneEvent(t, e, strict);
    PollCloses(t, strict);
  }

  lemma {:induction false} OneEvent(s: Stream, e: Event, strict: bool)
    requires Legal(s, [e], strict)
    ensures Enabled(s, e) && Run(s, [e], strict) == Do(s, e, strict)
  {
    assert [e][1..] == [];
  }

  /** The log of a stream's run is the log of what the others did. */
  function Others(events: seq<Event>): seq<R.Op> {
    if events == [] then [] else (if events[0].Other? then [events[0].op] else []) + Others(events[1..])
  }

  lemma {:induction false} RunLog(s: Stream, events: seq<Event>, strict: bool)
    requires Legal(s, events, strict)
    ensures R.Legal(s.log, Others(events), strict)
    ensures Run(s, events, strict).log == R.Run(s.log, Others(events), strict)
    decreases |events|
  {
    hide R.Do, R.Enabled, Read;
    if events != [] {
      RunLog(Do(s, events[0], strict), events[1..], strict);
      if events[0].Other? {
        assert Others(events)[1..] == Others(events[1..]);
      } else {
        assert Others(events) == Others(events[1..]);
      }
    }
  }

  /** A poll sends exactly when the cursor is at a record that marshals to at least
      a byte and, as written, is not the base of a later segment. */
  lemma {:induction false} PollProgress(s: Stream, strict: bool)
    requires Good(s.log)
    ensures s.log.segments != []
    ensures PollOnce(s, strict).cursor == s.cursor + 1 <==>
            && Lowest(s.log) <= s.cursor < Next(s.log)
            && (strict || !Boundary(s.log, s.cursor))
            && s.cursor - Lowest(s.log) < |Contents(s.log)| && Contents(s.log)[s.cursor - Lowest(s.log)] != DEFAULT
  {
    hide Good, Contents, Read, Boundary, Marshal;
    ReadStrict(s.log, s.cursor);
    ReadAsWritten(s.log, s.cursor);
    ContentsContiguous(s.log);
    if Lowest(s.log) <= s.cursor < Next(s.log) {
      MarshalSize(Contents(s.log)[s.cursor - Lowest(s.log)]);
    }
  }

  function Polls(events: seq<Event>): nat {
    if events == [] then 0 else (if events[0].Poll? then 1 else 0) + Polls(events[1..])
  }

  function Appends(events: seq<Event>): nat {
    if events == [] then 0
    else (if events[0].Other? && events[0].op.AppendOp? then 1 else 0) + Appends(events[1..])
  }

  /** The number of records left to send, from `p` at first: a poll takes one if
      there is one, an append adds one. */
  function Pending(p: nat, events: seq<Event>): (left: nat)
    ensures left <= Appends(events) + if Polls(events) < p then p - Polls(events) else 0
    decreases |events|
  {
    if events == [] then p
    else match events[0]
      case Poll => Pending(if p == 0 then 0 else p - 1, events[1..])
      case Other(AppendOp(_)) => Pending(p + 1, events[1..])
      case _ => Pending(p, events[1..])
  }

  /** What may come between: no cancellation, no truncation that removes a segment
      with the record at the cursor or a later one, and no all-default record at
      offset 0, which cannot be read. */
  predicate Spares(s: Stream, e: Event)
    requires s.log.segments != []
  {
    match e
    case Cancel => false
    case Other(TruncateOp(lowest)) =>
      forall i :: 0 <= i < |s.log.segments| && s.log.segments[i].Next() > s.cursor ==>
        After(lowest) < s.log.segments[i].Next()
    case Other(AppendOp(r)) => Next(s.log) == 0 ==> Stamp(r, 0) != DEFAULT
    case _ => true
  }

  predicate Spared(s: Stream, events: seq<Event>)
    requires Legal(s, events, true)
    decreases |events|
  {
    events == [] || (Spares(s, events[0]) && Spared(Do(s, events[0], true), events[1..]))
  }

  /** An open stream whose cursor is at a record that can be read, or at the end. */
  ghost predicate Following(s: Stream) {
    && Good(s.log) && s.open && Lowest(s.log) <= s.cursor <= Next(s.log)
    && (s.cursor == 0 && Contents(s.log) != [] ==> Contents(s.log)[0] != DEFAULT)
  }

  lemma {:induction false} FollowingStep(s: Stream, e: Event)
    requires Following(s) && Enabled(s, e)
    ensures var p, s' := Next(s.log) - s.cursor, Do(s, e, true);
            && Good(s'.log) && s'.cursor <= Next(s'.log)
            && (Following(s') <==> Spares(s, e))
            && Next(s'.log) == Next(s.log) + (if e.Other? && e.op.AppendOp? then 1 else 0)
            && s'.cursor == s.cursor + if e.Poll? && p > 0 then 1 else 0
  {
    hide Good, Contents, Read, Boundary, Append, Truncate;
    match e {
      case Poll =>
        ContentsContiguous(s.log);
        PollProgress(s, true);
        PollKeepsOpen(s);
      case Other(AppendOp(r)) =>
        AppendAdds(s.log, r);
        ContentsContiguous(s.log);
      case Other(TruncateOp(lowest)) =>
        var k := TruncateKeepsSuffix(s.log, lowest);
        CutAt(s.log, k, s.cursor);
        ContentsContiguous(s.log);
      case _ =>
    }
  }

  /** The segments before the `k`th end by `off` exactly when that one starts by it. */
  lemma {:induction false} CutAt(st: LogState, k: nat, off: nat)
    requires Good(st) && k < |st.segments| && Lowest(st) <= off
    ensures st.segments[k].base <= off <==> forall i :: 0 <= i < k ==> st.segments[i].Next() <= off
  {
    hide GoodSegment;
    forall i | 0 <= i < k
      ensures st.segments[i].Next() <= st.segments[k].base
    {
      Ordered(st.segments, i, k);
    }
    if k > 0 {
      assert Follows(st.segments[k - 1], st.segments[k]);
    }
  }

  /** A consumer that has fallen behind the lowest offset, has met a record that cannot
      be read, or is closed, stays so. */
  lemma {:induction false} LostStays(s: Stream, events: seq<Event>)
    requires Good(s.log) && s.cursor <= Next(s.log) && !Following(s) && Legal(s, events, true)
    ensures !Following(Run(s, events, true))
    decreases |events|
  {
    hide Following, Do, Good;
    if events != [] {
      LostStep(s, events[0]);
      LostStays(Do(s, events[0], true), events[1..]);
    }
  }

  lemma {:induction false} LostStep(s: Stream, e: Event)
    requires Good(s.log) && s.cursor <= Next(s.log) && !Following(s) && Enabled(s, e)
    ensures var s' := Do(s, e, true);
            Good(s'.log) && s'.cursor <= Next(s'.log) && !Following(s')
  {
    hide Good, Contents, Read, Boundary, Append, Truncate, Marshal;
    ContentsContiguous(s.log);
    match e {
      case Poll =>
        if s.open {
          LostPoll(s);
        }
      case Other(AppendOp(r)) => AppendAdds(s.log, r);
      case Other(TruncateOp(lowest)) => var _ := TruncateKeepsSuffix(s.log, lowest);
      case _ =>
    }
  }

  lemma {:induction false} LostPoll(s: Stream)
    requires Good(s.log) && s.cursor <= Next(s.log) && !Following(s) && s.open
    ensures PollOnce(s, true).log == s.log && PollOnce(s, true).cursor == s.cursor
  {
    hide Good, Contents, Read, Boundary, Marshal;
    ReadStrict(s.log, s.cursor);
    ContentsContiguous(s.log);
    if s.cursor == 0 && Lowest(s.log) <= s.cursor < Next(s.log) {
      MarshalSize(Contents(s.log)[0]);
    }
  }

  lemma {:induction false} PollKeepsOpen(s: Stream)
    requires Following(s)
    ensures PollOnce(s, true).open && PollOnce(s, true).log == s.log && PollOnce(s, true).cursor <= s.cursor + 1
  {
    hide Good, Contents, Read, Boundary, Marshal;
    ReadStrict(s.log, s.cursor);
    ContentsContiguous(s.log);
    if s.cursor < Next(s.log) {
      MarshalSize(Contents(s.log)[s.cursor - Lowest(s.log)]);
    }
  }

  /** With the strict bound a consumer at or above the lowest offset keeps following
      exactly when it is spared, whatever others append and truncate.  What is pending
      is then the records there were, plus those appended, less one for every poll that
      found one; after as many polls as there were pending records all of these have
      been sent. */
  lemma {:induction false} StrictCatchesUp(s: Stream, events: seq<Event>)
    requires Following(s) && Legal(s, events, true)
    ensures var e := Run(s, events, true);
            && (Following(e) <==> Spared(s, events))
            && (Following(e) ==>
                  && Next(e.log) == Next(s.log) + Appends(events)
                  && Next(e.log) - e.cursor == Pending(Next(s.log) - s.cursor, events)
                  && (Polls(events) >= Next(s.log) - s.cursor ==> e.cursor >= Next(s.log)))
    decreases |events|
  {
    hide Following, Do, Spares, Good;
    if events != [] {
      FollowingStep(s, events[0]);
      if Spares(s, events[0]) {
        StrictCatchesUp(Do(s, events[0], true), events[1..]);
      } else {
        LostStays(Do(s, events[0], true), events[1..]);
      }
    }
    FollowingBounds(s);
    if Following(Run(s, events, true)) {
      FollowingBounds(Run(s, events, true));
    }
  }

  lemma {:induction false} FollowingBounds(s: Stream)
    requires Following(s)
    ensures s.log.segments != [] && s.cursor <= Next(s.log)
  {
  }

  lemma {:induction false} BoundaryStays(st: LogState, r: Record, off: nat)
    requires Good(st) && Next(st) + 1 < TWO_64 && Boundary(st, off)
    ensures Boundary(Append(st, r), off)
  {
    hide Good, IsMaxed;
    var i :| 0 < i < |st.segments| && st.segments[i].base == off;
    assert Append(st, r).segments[i].base == off;
  }

  lemma {:induction false} BoundaryKept(s: Stream, e: Event)
    requires Good(s.log) && Boundary(s.log, s.cursor) && Enabled(s, e)
    requires e.Other? && e.op.TruncateOp? ==> After(e.op.lowest) < s.cursor
    ensures var s' := Do(s, e, false);
            Good(s'.log) && Boundary(s'.log, s'.cursor) && s'.cursor == s.cursor && s'.sent == s.sent
  {
    hide Good, Boundary, Read, Append, Truncate;
    match e {
      case Poll => ReadAsWritten(s.log, s.cursor);
      case Other(AppendOp(r)) =>
        AppendAdds(s.log, r);
        BoundaryStays(s.log, r, s.cursor);
      case Other(TruncateOp(lowest)) =>
        var i := SegmentAt(s.log, s.cursor);
        BaseAfterTruncate(s.log, lowest, i);
        var _ := TruncateKeepsSuffix(s.log, lowest);
      case _ =>
    }
  }

  lemma {:induction false} SegmentAt(st: LogState, off: nat) returns (i: nat)
    requires Boundary(st, off)
    ensures 0 < i < |st.segments| && st.segments[i].base == off
  {
    i :| 0 < i < |st.segments| && st.segments[i].base == off;
  }

  /** As written, a consumer that reaches the base of a later segment sends nothing
      more, however much is appended, read or truncated before the record that
      precedes its cursor, and however often it polls. */
  lemma {:induction false} StuckAtBoundary(s: Stream, events: seq<Event>)
    requires Good(s.log) && Boundary(s.log, s.cursor) && Legal(s, events, false)
    requires forall i :: 0 <= i < |events| && events[i].Other? && events[i].op.TruncateOp? ==>
               After(events[i].op.lowest) < s.cursor
    ensures Run(s, events, false).cursor == s.cursor && Run(s, events, false).sent == s.sent
    decreases |events|
  {
    hide Good, Boundary, Do;
    if events != [] {
      BoundaryKept(s, events[0]);
      StuckAtBoundary(Do(s, events[0], false), events[1..]);
    }
  }

  /** A truncation frees such a consumer exactly when it makes the segment at the
      cursor the first one: it must end that segment's predecessor, which ends at
      the cursor, and not that segment. */
  lemma {:induction false} TruncationFrees(s: Stream, lowest: uint64, i: nat)
    requires Good(s.log) && 0 < i < |s.log.segments| && s.log.segments[i].base == s.cursor
    requires After(lowest) < Next(s.log)
    ensures var t := s.(log := Truncate(s.log, lowest));
            && t.log.segments != []
            && (PollOnce(t, false).cursor == s.cursor + 1 <==> s.cursor <= After(lowest) < s.log.segments[i].Next())
            && (After(lowest) < s.cursor <==> Boundary(t.log, s.cursor))
            && (s.log.segments[i].Next() <= After(lowest) <==> s.cursor < Lowest(t.log))
  {
    hide Good, Boundary, Read, Truncate, Contents, Marshal;
    var st := Truncate(s.log, lowest);
    BaseAfterTruncate(s.log, lowest, i);
    var _ := TruncateKeepsSuffix(s.log, lowest);
    PollProgress(s.(log := st), false);
    ContentsContiguous(st);
    CursorAbove(s.log, i);
    if Lowest(st) == s.cursor {
      LowestNotBoundary(st);
      NextAboveLowest(s.log, st, i);
    }
  }

  /** The base of a later segment is not 0, so that the record there is not all-default. */
  lemma {:induction false} CursorAbove(st: LogState, i: nat)
    requires Good(st) && 0 < i < |st.segments|
    ensures 0 < st.segments[i].base
  {
    hide GoodSegment;
    Ordered(st.segments, 0, i);
  }

  lemma {:induction false} LowestNotBoundary(st: LogState)
    requires Good(st)
    ensures !Boundary(st, Lowest(st))
  {
    hide GoodSegment;
    forall i | 0 < i < |st.segments|
      ensures st.segments[i].base > Lowest(st)
    {
      Ordered(st.segments, 0, i);
    }
  }

  lemma {:induction false} NextAboveLowest(st: LogState, st': LogState, i: nat)
    requires Good(st) && Good(st') && 0 < i < |st.segments|
    requires Next(st') == Next(st) && Lowest(st') == st.segments[i].base
    ensures Lowest(st') < Next(st')
  {
    hide GoodSegment;
    assert Follows(st.segments[i - 1], st.segments[i]);
    if i < |st.segments| - 1 {
      Ordered(st.segments, i, |st.segments| - 1);
    }
  }

  // ---------- ProduceStream

  /** The requests of a producing stream, and what other clients do in between. */
  datatype Input = Request(record: Record) | Meanwhile(op: R.Op)

  function ToOp(input: Input): R.Op {
    if input.Request? then R.AppendOp(input.record) else input.op
  }

  function ToOps(inputs: seq<Input>): (ops: seq<R.Op>)
    ensures |ops| == |inputs|
  {
    if inputs == [] then [] else [ToOp(inputs[0])] + ToOps(inputs[1..])
  }

  function Requests(inputs: seq<Input>): seq<Record> {
    if inputs == [] then []
    else (if inputs[0].Request? then [inputs[0].record] else []) + Requests(inputs[1..])
  }

  /** One response per request: the offset the log is at when it comes. */
  function Answers(st: LogState, inputs: seq<Input>): (offsets: seq<nat>)
    requires R.Legal(st, ToOps(inputs), true)
    ensures |offsets| == |Requests(inputs)|
    decreases |inputs|
  {
    if inputs == [] then []
    else (if inputs[0].Request? then [Next(st)] else []) + Answers(R.Do(st, ToOps(inputs)[0], true).0, inputs[1..])
  }

  /** The offsets increase from `first` on, and each is where the flat log `end`
      holds the request's record. */
  ghost predicate Placed(initial: nat, first: nat, end: seq<Record>, offsets: seq<nat>, requests: seq<Record>) {
    && initial <= first && initial + |end| < TWO_64 && |offsets| == |requests|
    && (forall k :: 0 <= k < |offsets| ==>
          && first <= offsets[k] < initial + |end|
          && Stamp(end[offsets[k] - initial], offsets[k]) == Stamp(requests[k], offsets[k]))
    && forall j, k :: 0 <= j < k < |offsets| ==> offsets[j] < offsets[k]
  }

  lemma {:induction false} PlacedFirst(
    initial: nat, first: nat, end: seq<Record>, r: Record, offsets: seq<nat>, requests: seq<Record>)
    requires Placed(initial, first + 1, end, offsets, requests)
    requires initial <= first < initial + |end| && end[first - initial] == Stamp(r, first - initial)
    ensures Placed(initial, first, end, [first] + offsets, [r] + requests)
  {
  }

  /** Whatever others do in between, every answer is the offset at which the
      request's record is held, and the answers increase. */
  lemma {:induction false} ProducedWhere(st: LogState, flat: seq<Record>, inputs: seq<Input>)
    requires R.Represents(st, flat) && R.Legal(st, ToOps(inputs), true) && |flat| + |inputs| < TWO_64
    ensures var end := R.RunFlat(flat, ToOps(inputs));
            flat <= end && Placed(st.initial, st.initial + |flat|, end, Answers(st, inputs), Requests(inputs))
    decreases |inputs|
  {
    hide Good, R.Agrees, R.Represents, R.Do, R.DoFlat, R.Enabled, R.Legal, R.RunFlat, ToOps, Answers, Requests, Placed;
    R.RepresentsBounds(st, flat);
    if inputs == [] {
      NoneProduced(st, flat);
    } else {
      ProducedFirst(st, flat, inputs);
      var op, rest := ToOps(inputs)[0], inputs[1..];
      R.StepRefines(st, flat, op, true);
      OpKeepsInitial(st, op);
      ProducedWhere(R.Do(st, op, true).0, R.DoFlat(flat, op), rest);
      var end, offsets := R.RunFlat(R.DoFlat(flat, op), ToOps(rest)), Answers(R.Do(st, op, true).0, rest);
      if inputs[0].Request? {
        PlacedFirst(st.initial, Next(st), end, inputs[0].record, offsets, Requests(rest));
      } else {
        PlacedBefore(st.initial, Next(st), st.initial + |R.DoFlat(flat, op)|, end, offsets, Requests(rest));
      }
    }
  }

  lemma {:induction false} OpsNone(st: LogState)
    ensures R.Legal(st, ToOps([]), true) && R.Run(st, ToOps([]), true) == st && Answers(st, []) == []
  {
  }

  /** A run of a producing stream, unfolded once. */
  lemma {:induction false} OpsFirst(st: LogState, inputs: seq<Input>)
    requires inputs != [] && R.Legal(st, ToOps(inputs), true)
    ensures var op, rest := ToOps(inputs)[0], inputs[1..];
            && op == ToOp(inputs[0])
            && R.Enabled(st, op) && R.Legal(R.Do(st, op, true).0, ToOps(rest), true)
            && R.Run(st, ToOps(inputs), true) == R.Run(R.Do(st, op, true).0, ToOps(rest), true)
            && Answers(st, inputs) ==
               (if inputs[0].Request? then [Next(st)] else []) + Answers(R.Do(st, op, true).0, rest)
  {
    hide R.Do, R.Enabled;
    assert ToOps(inputs)[1..] == ToOps(inputs[1..]);
  }

  /** The recursive functions of the run, unfolded once. */
  lemma {:induction false} ProducedFirst(st: LogState, flat: seq<Record>, inputs: seq<Input>)
    requires inputs != [] && R.Legal(st, ToOps(inputs), true) && |flat| + |inputs| < TWO_64
    ensures var op, rest := ToOps(inputs)[0], inputs[1..];
            && R.Enabled(st, op) && R.Legal(R.Do(st, op, true).0, ToOps(rest), true)
            && |flat| <= |R.DoFlat(flat, op)| <= |flat| + 1 && flat <= R.DoFlat(flat, op)
            && R.RunFlat(flat, ToOps(inputs)) == R.RunFlat(R.DoFlat(flat, op), ToOps(rest))
            && if inputs[0].Request? then
                 && R.DoFlat(flat, op) == flat + [Stamp(inputs[0].record, |flat|)]
                 && Requests(inputs) == [inputs[0].record] + Requests(rest)
                 && Answers(st, inputs) == [Next(st)] + Answers(R.Do(st, op, true).0, rest)
               else
                 Requests(inputs) == Requests(rest) && Answers(st, inputs) == Answers(R.Do(st, op, true).0, rest)
  {
    hide R.Do, R.Enabled;
    assert ToOps(inputs)[1..] == ToOps(inputs[1..]);
  }

  lemma {:induction false} NoneProduced(st: LogState, flat: seq<Record>)
    requires st.initial + |flat| < TWO_64
    ensures R.Legal(st, ToOps([]), true) && R.RunFlat(flat, ToOps([])) == flat
    ensures Placed(st.initial, st.initial + |flat|, flat, Answers(st, []), Requests([]))
  {
  }

  lemma {:induction false} PlacedBefore(
    initial: nat, first: nat, later: nat, end: seq<Record>, offsets: seq<nat>, requests: seq<Record>)
    requires Placed(initial, later, end, offsets, requests) && initial <= first <= later
    ensures Placed(initial, first, end, offsets, requests)
  {
  }

  lemma {:induction false} OpKeepsInitial(st: LogState, op: R.Op)
    requires R.Enabled(st, op)
    ensures R.Do(st, op, true).0.initial == st.initial
  {
    hide Read;
  }
}
