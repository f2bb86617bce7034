// The state machine and raft's log store at work on the log itself
// (internal/log/distributed.go), and the gRPC streams over it.
module Distributed {
  import opened Bytes
  import opened Wrappers
  import opened Codec
  import opened Framing
  import opened LogSpec
  import opened LogTheorems
  import opened LogSegment
  import opened SegmentedLog
  import opened Restoring
  import RaftStore
  import Replica
  import FlatLog
  import S = Streams
  import R = Refinement

  // ---------- fsm.Restore

  /** The snapshot being restored. */
  class SnapshotReader {
    const data: bytes
    var pos: nat

    constructor (d: bytes)
      ensures data == d && pos == 0
    {
      data, pos := d, 0;
    }

    ghost predicate Valid()
      reads this
    {
      pos <= |data|
    }

    ghost function Rest(): bytes
      requires Valid()
      reads this
    {
      data[pos..]
    }

    /** io.ReadFull: nothing left is EOF, a short read is an unexpected one. */
    method ReadFull(n: nat) returns (b: bytes, error: Option<Error>)
      requires Valid() && n > 0
      modifies this
      ensures Valid()
      ensures if |old(Rest())| >= n then error == None && b == old(Rest())[..n] && Rest() == old(Rest())[n..]
              else error == Some(if old(Rest()) == [] then EndOfFile else UnexpectedEndOfFile)
    {
      if pos + n <= |data| {
        b, error := data[pos..pos + n], None;
        pos := pos + n;
      } else {
        b, error := data[pos..], Some(if pos == |data| then EndOfFile else UnexpectedEndOfFile);
        pos := |data|;
      }
    }

    /** io.CopyN: a short copy is EOF, a negative count copies nothing. */
    method CopyN(n: int) returns (b: bytes, error: Option<Error>)
      requires Valid()
      modifies this
      ensures Valid()
      ensures var k := if n < 0 then 0 else n;
              if |old(Rest())| >= k then error == None && b == old(Rest())[..k] && Rest() == old(Rest())[k..]
              else error == Some(EndOfFile)
    {
      var k := if n < 0 then 0 else n;
      if pos + k <= |data| {
        b, error := data[pos..pos + k], None;
        pos := pos + k;
      } else {
        b, error := data[pos..], Some(EndOfFile);
        pos := |data|;
      }
    }

    /** One round of the restore loop, up to the unmarshalled record; None at the end. */
    method NextRecord() returns (r: Option<Result<Record>>)
      requires Valid()
      modifies this
      ensures Valid()
      ensures old(Rest()) == [] ==> r == None
      ensures old(Rest()) != [] ==>
                match TakeRecord(old(Rest()))
                case Err(e) => r == Some(Err(e))
                case Ok((record, n)) => r == Some(Ok(record)) && Rest() == old(Rest())[n..]
    {
      hide Unmarshal, FromBE;
      ghost var rest := Rest();
      var header, short := ReadFull(LEN_WIDTH);
      if short == Some(EndOfFile) {
        return None;
      } else if short.Some? {
        return Some(Err(short.value));
      }
      var size := FromBE(header);
      HeaderBound(header);
      var p, torn := CopyN(if size < TWO_63 then size else size - TWO_64);
      if torn.Some? {
        return Some(Err(torn.value));
      }
      ghost var n := if size < TWO_63 then size else 0;
      assert p == rest[LEN_WIDTH..LEN_WIDTH + n];
      r := Some(Unmarshal(p));
    }
  }

  lemma {:induction false} HeaderBound(header: bytes)
    requires |header| == LEN_WIDTH
    ensures FromBE(header) < TWO_64
  {
    FromBEBound(header);
    Pow256Widths();
  }

  /** The log has been emptied for the first of the records `done` and refilled with them. */
  ghost predicate Refilled(st: LogState, done: seq<Record>, log: LogState) {
    && done != [] && GoodLimits(st.limits) && done[0].offset + |done| < TWO_64
    && Good(Reset(st, done[0].offset)) && Next(Reset(st, done[0].offset)) + |done| < TWO_64
    && log == AppendAll(Reset(st, done[0].offset), done)
  }

  /** The log as the restore loop has it after the records `done`: as it was, or refilled. */
  ghost predicate SoFar(st: LogState, done: seq<Record>, log: LogState) {
    if done == [] then log == st else Refilled(st, done, log)
  }

  /** One append of the restore loop, the first time onto the emptied log. */
  lemma {:induction false} RefillStep(st: LogState, done: seq<Record>, all: seq<Record>, record: Record, log: LogState)
    requires GoodLimits(st.limits) && done + [record] <= all && all[0].offset + |all| < TWO_64
    requires if done == [] then log == Reset(st, record.offset) else Refilled(st, done, log)
    ensures Good(log) && Next(log) + 1 < TWO_64 && Refilled(st, done + [record], Append(log, record))
  {
    hide Good, AppendAll, Append;
    var first := (done + [record])[0].offset;
    FreshGood(st.limits, first);
    AppendAllAppend(Reset(st, first), done, record);
    AppendAllAdds(Reset(st, first), done);
    if done == [] {
      AppendNone(Reset(st, first));
    }
  }

  lemma {:induction false} AppendNone(st: LogState)
    requires Good(st)
    ensures AppendAll(st, []) == st
  {
  }

  /** Half way through a stream that parses to `all`: the records `done`, then those of `rest`. */
  ghost predicate HalfParsed(all: Parsed, done: seq<Record>, rest: bytes) {
    all == Parsed(done + Parse(rest).records, Parse(rest).error)
  }

  lemma {:induction false} RestoreStarts(st: LogState, b: bytes)
    ensures HalfParsed(Parse(b), [], b) && SoFar(st, [], st)
  {
    hide Parse;
    assert [] + Parse(b).records == Parse(b).records;
  }

  lemma {:induction false} ParseNext(all: Parsed, done: seq<Record>, rest: bytes)
    requires HalfParsed(all, done, rest) && rest != [] && TakeRecord(rest).Ok?
    ensures var (r, n) := TakeRecord(rest).value;
            HalfParsed(all, done + [r], rest[n..]) && done + [r] <= all.records
  {
    var (r, n) := TakeRecord(rest).value;
    assert done + ([r] + Parse(rest[n..]).records) == done + [r] + Parse(rest[n..]).records;
  }

  /** The restore loop ends: the records done are those of the stream. */
  lemma {:induction false} RestoreEnds(st: LogState, b: bytes, done: seq<Record>, rest: bytes, log: LogState)
    requires GoodLimits(st.limits) && Fits(b) && HalfParsed(Parse(b), done, rest) && SoFar(st, done, log)
    requires rest == [] || TakeRecord(rest).Err?
    ensures Restore(st, b) == log
    ensures Parse(b) == Parsed(done, if rest == [] then None else Some(TakeRecord(rest).error))
  {
    hide Good, AppendAll, TakeRecord;
    assert done + [] == done;
  }

  /** The part of the loop that touches the log: reset it for the first record, append. */
  method Refill(
      log: Log, i: nat, record: Record, repaired: bool,
      ghost st: LogState, ghost done: seq<Record>, ghost all: seq<Record>)
    returns (error: Option<Error>)
    requires log.Valid() && i == |done| && (i > 0 ==> repaired) && log.limits == st.limits && GoodLimits(st.limits)
    requires done + [record] <= all && AllFit(all)
    requires SoFar(st, done, log.State())
    modifies log, log.dir, log.Repr
    ensures repaired ==> error == None && log.Valid() && log.limits == st.limits && fresh(log.Repr - old(log.Repr))
    ensures repaired ==> SoFar(st, done + [record], log.State())
    ensures !repaired ==> error == Some(DirectoryMissing) && !log.dir.present && log.dir.files == map[]
  {
    hide Segment.Valid, Segment.Clean, Log.Structured, Good, Refilled, Append;
    if i == 0 {
      log.SetInitialOffset(record.offset);
      var reset := log.Reset(repaired);
      if reset.Err? {
        return Some(reset.error);
      }
    }
    RefillStep(st, done, all, record, log.State());
    KeepsLimits(log.State(), record);
    ghost var mid := log.Repr;
    var _ := log.Append(record);
    assert log.Repr - old(log.Repr) <= (mid - old(log.Repr)) + (log.Repr - mid);
    error := None;
  }

  /** Restore; `repaired` uses the intended Reset.  As written the first record's
      Reset fails, so that a snapshot with any record cannot be restored. */
  method RestoreLog(log: Log, r: SnapshotReader, repaired: bool) returns (error: Option<Error>)
    requires log.Valid() && r.Valid() && r !in log.Repr && Fits(r.Rest())
    modifies log, log.dir, log.Repr, r
    ensures repaired || Parse(old(r.Rest())).records == [] ==>
              && log.Valid() && error == Parse(old(r.Rest())).error
              && log.State() == Restore(old(log.State()), old(r.Rest()))
    ensures !repaired && Parse(old(r.Rest())).records != [] ==>
              error == Some(DirectoryMissing) && !log.dir.present && log.dir.files == map[]
  {
    hide Segment.Valid, Segment.Clean, Log.Structured, Good, GoodLimits, Parse, TakeRecord, SoFar, Restore, HalfParsed;
    hide Unmarshal, AllFit, Flatten, Print, Marshal;
    ghost var st, all := log.State(), Parse(r.Rest());
    ghost var done: seq<Record> := [];
    RestoreStarts(st, r.Rest());
    error := None;
    var i := 0;
    while true
      invariant r.Valid() && error == None && i == |done| && (i > 0 ==> repaired)
      invariant HalfParsed(all, done, r.Rest())
      invariant log.Valid() && log.limits == st.limits && fresh(log.Repr - old(log.Repr))
      invariant SoFar(st, done, log.State())
      decreases |r.Rest()|
    {
      ghost var rest := r.Rest();
      var next := r.NextRecord();
      if next == None || next.value.Err? {
        RestoreEnds(st, old(r.Rest()), done, rest, log.State());
        error := if next == None then None else Some(next.value.error);
        break;
      }
      var record := next.value.value;
      ParseNext(all, done, rest);
      ghost var mid := log.Repr;
      error := Refill(log, i, record, repaired, st, done, all.records);
      if error.Some? {
        return;
      }
      assert log.Repr - old(log.Repr) <= (mid - old(log.Repr)) + (log.Repr - mid);
      done := done + [record];
      i := i + 1;
    }
  }

  // ---------- fsm.Apply

  method ApplyCommand(log: Log, data: bytes) returns (response: Replica.Response)
    requires log.Valid() && Next(log.State()) + 1 < TWO_64 && Replica.ValidCommand(data)
    modifies log, log.dir, log.Repr
    ensures log.Valid() && fresh(log.Repr - old(log.Repr))
    ensures (log.State(), response) == Replica.Apply(old(log.State()), data)
  {
    hide Segment.Valid, Segment.Clean, Log.Structured, Good, Append, UnmarshalRequest;
    if data[0] != Replica.APPEND_REQUEST {
      return Replica.Ignored;
    }
    var request := UnmarshalRequest(data[1..]);
    if request.Err? {
      return Replica.Failed(request.error);
    }
    var off := log.Append(request.value.value);
    response := Replica.Produced(off.value);
  }

  // ---------- logStore

  method StoreLogs(log: Log, batch: seq<RaftStore.Entry>)
    requires log.Valid() && Next(log.State()) + |batch| < TWO_64
    modifies log, log.dir, log.Repr
    ensures log.Valid() && fresh(log.Repr - old(log.Repr))
    ensures log.State() == RaftStore.StoreLogs(old(log.State()), batch)
  {
    hide Segment.Valid, Segment.Clean, Log.Structured, Good, Append, AppendAll;
    ghost var st, rs := log.State(), RaftStore.ToRecords(batch);
    AppendNone(st);
    var i := 0;
    while i < |batch|
      invariant 0 <= i <= |batch| && log.Valid() && fresh(log.Repr - old(log.Repr))
      invariant log.State() == AppendAll(st, rs[..i])
    {
      AppendAllAppend(st, rs[..i], rs[i]);
      assert rs[..i] + [rs[i]] == rs[..i + 1];
      ghost var mid := log.Repr;
      var _ := log.Append(Record(batch[i].data, 0, batch[i].term, batch[i].kind));
      assert log.Repr - old(log.Repr) <= (mid - old(log.Repr)) + (log.Repr - mid);
      i := i + 1;
    }
    assert rs[..|batch|] == rs;
  }

  method GetLog(log: Log, index: uint64, strict: bool) returns (r: Result<RaftStore.Entry>)
    requires log.Valid()
    modifies log.Repr
    ensures log.Valid() && log.State() == old(log.State())
    ensures r == RaftStore.GetLog(log.State(), index, strict)
  {
    hide Segment.Valid, Segment.Clean, Log.Structured, Good, LogSpec.Read;
    var entry := log.Read(index, strict);
    if entry.Err? {
      return Err(entry.error);
    }
    var e := entry.value;
    r := Ok(RaftStore.Entry(e.offset, e.term, e.kind % 256, e.value));
  }

  /** The lower bound is not looked at; reaching the last index leaves no segment. */
  method DeleteRange(log: Log, min: uint64, max: uint64)
    requires log.Valid()
    modifies log, log.dir, log.Repr
    ensures log.State() == RaftStore.DeleteRange(old(log.State()), min, max)
    ensures if After(max) < old(Next(log.State())) then log.Valid() else log.segments == [] && log.dir.files == map[]
  {
    hide Segment.Valid, Segment.Clean, Log.Structured, Good;
    log.Truncate(max);
  }

  // ---------- the gRPC streams

  /** The environment of a stream acts on the log. */
  method OtherClient(log: Log, op: R.Op, strict: bool)
    requires log.Valid() && R.Enabled(log.State(), op)
    modifies log, log.dir, log.Repr
    ensures log.Valid() && fresh(log.Repr - old(log.Repr))
    ensures log.State() == R.Do(old(log.State()), op, strict).0
  {
    hide Segment.Valid, Segment.Clean, Log.Structured, Good, Append, Truncate, LogSpec.Read;
    match op {
      case AppendOp(record) => var _ := log.Append(record);
      case TruncateOp(lowest) => log.Truncate(lowest);
      case _ =>
    }
  }

  /** ConsumeStream's loop: until it is cancelled or a read fails for good, it polls
      at its cursor, sends what it reads and moves on. */
  method ConsumeStream(log: Log, start: uint64, events: seq<S.Event>, strict: bool) returns (sent: seq<Record>)
    requires log.Valid() && S.Legal(S.Stream(log.State(), start, [], true), events, strict)
    requires start + |events| < TWO_64
    modifies log, log.dir, log.Repr
    ensures log.Valid()
    ensures var s := S.Run(S.Stream(old(log.State()), start, [], true), events, strict);
            log.State() == s.log && sent == s.sent
    ensures forall i :: 0 <= i < |events| && events[i] == S.Cancel ==>
              var s := S.Stream(old(log.State()), start, [], true);
              S.Legal(s, events[..i], strict) && sent == S.Run(s, events[..i], strict).sent
  {
    hide Log.Valid, Log.Structured, S.Do, S.Enabled, S.Legal, S.Run;
    ghost var s := S.Stream(log.State(), start, [], true);
    ghost var goal := S.Run(s, events, strict);
    S.CancelAt(s, events, strict);
    assert events[0..] == events;
    var offset: nat := start;
    var open := true;
    sent := [];
    var i := 0;
    while i < |events|
      invariant 0 <= i <= |events| && offset <= start + i
      invariant log.Valid() && fresh(log.Repr - old(log.Repr))
      invariant s == S.Stream(log.State(), offset, sent, open)
      invariant S.Legal(s, events[i..], strict) && S.Run(s, events[i..], strict) == goal
    {
      assert events[i..][0] == events[i] && events[i..][1..] == events[i + 1..];
      S.RunFirst(s, events[i..], strict);
      s := S.Do(s, events[i], strict);
      ghost var mid := log.Repr;
      offset, sent, open := TakeEvent(log, events[i], offset, sent, open, strict);
      assert log.Repr - old(log.Repr) <= (mid - old(log.Repr)) + (log.Repr - mid);
      i := i + 1;
    }
    assert events[|events|..] == [];
    S.RunNone(s, strict);
  }

  /** One turn of the loop, or what happens between two. */
  method TakeEvent(log: Log, event: S.Event, offset: uint64, sent: seq<Record>, open: bool, strict: bool)
    returns (offset': nat, sent': seq<Record>, open': bool)
    requires log.Valid() && S.Enabled(S.Stream(log.State(), offset, sent, open), event)
    modifies log, log.dir, log.Repr
    ensures log.Valid() && fresh(log.Repr - old(log.Repr)) && offset' <= offset + 1
    ensures S.Stream(log.State(), offset', sent', open') ==
            S.Do(S.Stream(old(log.State()), offset, sent, open), event, strict)
  {
    hide Segment.Valid, Segment.Clean, Log.Structured, Good, LogSpec.Read, R.Do, R.Enabled;
    offset', sent', open' := offset, sent, open;
    match event {
      case Other(op) => OtherClient(log, op, strict);
      case Cancel => open' := false;
      case Poll =>
        if open {
          var r := log.Read(offset, strict);
          match r {
            case Ok(record) =>
              sent' := sent + [record];
              offset' := offset + 1;
            case Err(OffsetOutOfRange(_)) =>
            case Err(_) => open' := false;
          }
        }
    }
  }

  /** ProduceStream: one response per request, while others use the log, too. */
  method ProduceStream(log: Log, inputs: seq<S.Input>) returns (offsets: seq<nat>)
    requires log.Valid() && R.Legal(log.State(), S.ToOps(inputs), true)
    modifies log, log.dir, log.Repr
    ensures log.Valid() && log.State() == R.Run(old(log.State()), S.ToOps(inputs), true)
    ensures offsets == S.Answers(old(log.State()), inputs)
  {
    hide Segment.Valid, Segment.Clean, Log.Structured, Good, R.Do, R.Enabled, R.Legal, R.Run, S.ToOp, S.ToOps;
    hide S.Answers;
    ghost var st := log.State();
    assert inputs[0..] == inputs;
    offsets := [];
    var i := 0;
    while i < |inputs|
      invariant 0 <= i <= |inputs| && log.Valid() && fresh(log.Repr - old(log.Repr))
      invariant R.Legal(log.State(), S.ToOps(inputs[i..]), true)
      invariant R.Run(log.State(), S.ToOps(inputs[i..]), true) == R.Run(st, S.ToOps(inputs), true)
      invariant offsets + S.Answers(log.State(), inputs[i..]) == S.Answers(st, inputs)
    {
      ghost var before, sent, rest := log.State(), offsets, inputs[i + 1..];
      S.OpsFirst(before, inputs[i..]);
      assert inputs[i..][0] == inputs[i] && inputs[i..][1..] == rest;
      ghost var mid := log.Repr;
      var answer := TakeInput(log, inputs[i]);
      offsets := offsets + answer;
      Regroup(sent, answer, S.Answers(log.State(), rest));
      assert log.Repr - old(log.Repr) <= (mid - old(log.Repr)) + (log.Repr - mid);
      i := i + 1;
    }
    assert inputs[|inputs|..] == [];
    S.OpsNone(log.State());
  }

  /** Produce for a request, and the response to it; or what another client does. */
  method TakeInput(log: Log, input: S.Input) returns (answer: seq<nat>)
    requires log.Valid() && R.Enabled(log.State(), S.ToOp(input))
    modifies log, log.dir, log.Repr
    ensures log.Valid() && fresh(log.Repr - old(log.Repr))
    ensures log.State() == R.Do(old(log.State()), S.ToOp(input), true).0
    ensures answer == if input.Request? then [old(Next(log.State()))] else []
  {
    hide Segment.Valid, Segment.Clean, Log.Structured, Good, Append;
    match input {
      case Request(record) =>
        var off := log.Append(record);
        answer := [off.value];
      case Meanwhile(op) =>
        OtherClient(log, op, true);
        answer := [];
    }
  }

  // ---------- the two logs side by side

  /** Runs the segmented and the flat log on the same operations and compares
      every answer of the first with the second. */
  method SideBySide(log: Log, flat: FlatLog.Log, ops: seq<R.Op>, strict: bool) returns (agree: bool)
    requires log.Valid() && flat.Valid() && flat !in log.Repr
    requires R.Represents(log.State(), flat.records) && R.Legal(log.State(), ops, strict)
    requires |flat.records| + |ops| < TWO_64
    modifies log, log.dir, log.Repr, flat
    ensures agree && log.Valid() && flat.Valid()
    ensures log.State() == R.Run(old(log.State()), ops, strict) && flat.records == R.RunFlat(old(flat.records), ops)
    ensures R.Represents(log.State(), flat.records)
  {
    hide Segment.Valid, Segment.Clean, Log.Structured, Good, R.Represents;
    hide R.Do, R.DoFlat, R.Enabled, R.Legal, R.Run, R.RunFlat;
    ghost var st, records := log.State(), flat.records;
    assert ops[0..] == ops;
    agree := true;
    var i := 0;
    while i < |ops|
      invariant 0 <= i <= |ops| && agree && log.Valid() && flat.Valid()
      invariant fresh(log.Repr - old(log.Repr)) && |flat.records| + |ops| - i < TWO_64
      invariant R.Represents(log.State(), flat.records) && R.Legal(log.State(), ops[i..], strict)
      invariant R.Run(log.State(), ops[i..], strict) == R.Run(st, ops, strict)
      invariant R.RunFlat(flat.records, ops[i..]) == R.RunFlat(records, ops)
    {
      assert ops[i..][0] == ops[i] && ops[i..][1..] == ops[i + 1..];
      R.RunFirst(log.State(), flat.records, ops[i..], strict);
      ghost var mid := log.Repr;
      var same := OpOnBoth(log, flat, ops[i], strict);
      agree := agree && same;
      assert log.Repr - old(log.Repr) <= (mid - old(log.Repr)) + (log.Repr - mid);
      i := i + 1;
    }
    assert ops[|ops|..] == [];
    R.RunNothing(log.State(), flat.records, strict);
  }

  /** One operation on both logs: the offset appended at, counted from the initial
      one; the record read, if there is one; and the highest offset are the same. */
  method OpOnBoth(log: Log, flat: FlatLog.Log, op: R.Op, strict: bool) returns (same: bool)
    requires log.Valid() && flat.Valid() && flat !in log.Repr
    requires R.Represents(log.State(), flat.records) && R.Enabled(log.State(), op) && |flat.records| + 1 < TWO_64
    modifies log, log.dir, log.Repr, flat
    ensures same && log.Valid() && flat.Valid() && fresh(log.Repr - old(log.Repr))
    ensures log.State() == R.Do(old(log.State()), op, strict).0 && flat.records == R.DoFlat(old(flat.records), op)
    ensures R.Represents(log.State(), flat.records)
  {
    hide Segment.Valid, Segment.Clean, Log.Structured, Good, R.Represents, Boundary, Append, Truncate, LogSpec.Read;
    hide FlatLog.Read;
    R.StepRefines(log.State(), flat.records, op, strict);
    R.RepresentsBounds(log.State(), flat.records);
    same := true;
    var initial := log.initialOffset;
    match op {
      case AppendOp(record) => same := AppendOnBoth(log, flat, record);
      case ReadOp(off) =>
        if off < TWO_64 {
          same := ReadOnBoth(log, flat, off, strict);
        }
      case TruncateOp(lowest) => log.Truncate(lowest);
      case LowestOp =>
        var off := log.LowestOffset();
        same := initial <= off;
      case HighestOp =>
        var off := log.HighestOffset();
        var n := |flat.records|;
        same := off == HighestBelow(initial + n);
    }
  }

  method AppendOnBoth(log: Log, flat: FlatLog.Log, record: Record) returns (same: bool)
    requires log.Valid() && flat.Valid() && flat !in log.Repr && Next(log.State()) + 1 < TWO_64
    requires Next(log.State()) == log.initialOffset + |flat.records|
    modifies log, log.dir, log.Repr, flat
    ensures same && log.Valid() && flat.Valid() && fresh(log.Repr - old(log.Repr))
    ensures log.State() == LogSpec.Append(old(log.State()), record)
    ensures flat.records == FlatLog.Append(old(flat.records), record)
  {
    hide Segment.Valid, Segment.Clean, Log.Structured, Views, Good, Append, Print;
    var initial := log.initialOffset;
    var off := log.Append(record);
    var flatOff := flat.AppendRecord(record);
    assert flat.records == FlatLog.Append(old(flat.records), record);
    same := off.value == initial + flatOff;
  }

  method ReadOnBoth(log: Log, flat: FlatLog.Log, off: uint64, strict: bool) returns (same: bool)
    requires log.Valid() && flat.Valid() && flat !in log.Repr && R.Represents(log.State(), flat.records)
    modifies log.Repr
    ensures same && log.Valid() && log.State() == old(log.State())
  {
    hide Segment.Valid, Segment.Clean, Log.Structured, Good, R.Represents, Boundary, LogSpec.Read;
    R.ReadAgrees(log.State(), flat.records, off, strict);
    var r := log.Read(off, strict);
    if r.Err? {
      return true;
    }
    var f := flat.ReadRecord(off - log.initialOffset);
    same := f.Some? && r.value == Stamp(f.value, off);
  }
}
