// `Log.Reader`: the stores of all segments, read one after the other.
module LogReader {
  import opened Bytes
  import opened Wrappers
  import opened Codec
  import opened Framing
  import opened LogSpec
  import opened StoreFile
  import opened LogSegment
  import opened SegmentedLog
  import S = Snapshot

  class OriginReader {
    const store: Store
    var off: nat

    constructor (s: Store)
      ensures store == s && off == 0
    {
      store, off := s, 0;
    }

    ghost predicate Valid()
      reads this, store, store.file
    {
      off <= |store.Contents()|
    }

    ghost function Unread(): bytes
      requires Valid()
      reads this, store, store.file
    {
      store.Contents()[off..]
    }

    method Read(n: nat) returns (p: bytes, eof: bool)
      requires Valid()
      modifies this, store`buf, store.file
      ensures Valid() && store.Contents() == old(store.Contents())
      ensures old(Unread()) == p + Unread() && off == old(off) + |p|
      ensures |p| <= n && (eof <==> |p| < n) && (eof ==> Unread() == [])
    {
      p, eof := store.ReadAt(n, off);
      off := off + |p|;
    }
  }

  /** No reader, store or file occurs twice. */
  predicate Separate(rs: seq<OriginReader>) {
    forall i, j :: 0 <= i < j < |rs| ==>
      rs[i] != rs[j] && rs[i].store != rs[j].store && rs[i].store.file != rs[j].store.file
  }

  ghost predicate Readable(rs: seq<OriginReader>)
    reads rs, set r | r in rs :: r.store, set r | r in rs :: r.store.file
  {
    Separate(rs) && forall i :: 0 <= i < |rs| ==> rs[i].Valid()
  }

  /** What is left to read: the unread bytes of each reader in turn. */
  ghost function Rest(rs: seq<OriginReader>): bytes
    requires Readable(rs)
    reads rs, set r | r in rs :: r.store, set r | r in rs :: r.store.file
  {
    if rs == [] then [] else rs[0].Unread() + Rest(rs[1..])
  }

  lemma {:induction false} RestFirst(rs: seq<OriginReader>)
    requires Readable(rs) && rs != []
    ensures Separate(rs) && Readable(rs[1..]) && rs[0].Valid() && Rest(rs) == rs[0].Unread() + Rest(rs[1..])
  {
  }

  lemma {:induction false} RestAgain(rs: seq<OriginReader>)
    requires Separate(rs) && rs != [] && rs[0].Valid() && Readable(rs[1..])
    ensures Readable(rs) && Rest(rs) == rs[0].Unread() + Rest(rs[1..])
  {
    assert forall i :: 0 < i < |rs| ==> rs[i] == rs[1..][i - 1];
  }

  twostate lemma {:induction false} RestKept(new rs: seq<OriginReader>)
    requires forall i :: 0 <= i < |rs| ==>
             old(allocated(rs[i])) && old(allocated(rs[i].store)) && old(allocated(rs[i].store.file))
    requires old(Readable(rs))
    requires forall i :: 0 <= i < |rs| ==> unchanged(rs[i]) && unchanged(rs[i].store) && unchanged(rs[i].store.file)
    ensures Readable(rs) && Rest(rs) == old(Rest(rs))
    decreases |rs|
  {
    if rs != [] {
      RestKept(rs[1..]);
    }
  }

  twostate lemma {:induction false} TailKept(new rs: seq<OriginReader>)
    requires rs != [] && Separate(rs)
    requires forall i :: 0 <= i < |rs| ==>
             old(allocated(rs[i])) && old(allocated(rs[i].store)) && old(allocated(rs[i].store.file))
    requires old(Readable(rs[1..]))
    requires forall i :: 0 < i < |rs| ==> unchanged(rs[i]) && unchanged(rs[i].store) && unchanged(rs[i].store.file)
    ensures Readable(rs[1..]) && Rest(rs[1..]) == old(Rest(rs[1..]))
  {
    hide Readable, Rest;
    RestKept(rs[1..]);
  }

  /** io.MultiReader */
  class MultiReader {
    var readers: seq<OriginReader>

    constructor (rs: seq<OriginReader>)
      ensures readers == rs
    {
      readers := rs;
    }

    ghost predicate Valid()
      reads this, readers, set r | r in readers :: r.store, set r | r in readers :: r.store.file
    {
      Readable(readers)
    }

    ghost function Remaining(): bytes
      requires Valid()
      reads this, readers, set r | r in readers :: r.store, set r | r in readers :: r.store.file
    {
      Rest(readers)
    }

    /** One round of Read on the first reader. */
    method ReadFirst(n: nat) returns (p: bytes, eof: bool)
      requires Valid() && readers != []
      modifies this, readers[0], readers[0].store`buf, readers[0].store.file
      ensures readers == if eof then old(readers[1..]) else old(readers)
      ensures var r := old(readers[0]);
              && r.Valid() && r.store.Contents() == old(r.store.Contents()) && r.off == old(r.off) + |p|
              && old(r.Unread()) == p + r.Unread() && (eof ==> r.Unread() == [])
      ensures Valid() && old(Remaining()) == p + Remaining()
      ensures |p| <= n && (eof <==> |p| < n)
    {
      hide Readable, Rest;
      RestFirst(readers);
      ghost var tail := readers[1..];
      var r := readers[0];
      p, eof := r.Read(n);
      TailKept(readers);
      Regroup(p, r.Unread(), Rest(tail));
      if eof {
        readers := readers[1..];
      } else {
        RestAgain(readers);
      }
    }

    /** Reads up to `n` of the remaining bytes; end of file comes only when none remain. */
    method Read(n: nat) returns (p: bytes, eof: bool)
      requires Valid()
      modifies this, readers, (set r | r in readers :: r.store), (set r | r in readers :: r.store.file)
      ensures Valid() && old(Remaining()) == p + Remaining() && |p| <= n
      ensures exists k :: 0 <= k <= |old(readers)| && readers == old(readers)[k..]
      ensures eof ==> readers == []
      ensures n > 0 && !eof ==> |p| > 0
    {
      hide Readable, Rest;
      p, eof := [], true;
      ghost var k := 0;
      while readers != []
        invariant k <= |old(readers)| && readers == old(readers)[k..]
        invariant Valid() && p == [] && eof && Remaining() == old(Remaining())
        decreases |readers|
      {
        assert readers[0] == old(readers)[k];
        p, eof := ReadFirst(n);
        if eof {
          k := k + 1;
        }
        if p != [] || !eof {
          eof := eof && readers == [];
          return;
        }
      }
    }
  }

  /** io.Copy, `chunk` bytes at a time: what Persist writes to the snapshot sink. */
  method Copy(r: MultiReader, chunk: nat) returns (sink: bytes)
    requires r.Valid() && chunk > 0
    modifies r, r.readers, (set q | q in r.readers :: q.store), (set q | q in r.readers :: q.store.file)
    ensures sink == old(r.Remaining())
  {
    hide Readable, Rest;
    sink := [];
    var eof := false;
    ghost var k := 0;
    while !eof
      invariant k <= |old(r.readers)| && r.readers == old(r.readers)[k..]
      invariant r.Valid() && sink + r.Remaining() == old(r.Remaining())
      invariant eof ==> r.readers == []
      decreases !eof, |r.Remaining()|
    {
      ghost var s, rest := sink, r.Remaining();
      var p, e := r.Read(chunk);
      eof := e;
      sink := sink + p;
      assert s + (p + r.Remaining()) == sink + r.Remaining();
      ghost var j :| 0 <= j <= |old(r.readers)[k..]| && r.readers == old(r.readers)[k..][j..];
      k := k + j;
    }
    RestNone();
  }

  lemma {:induction false} RestNone()
    ensures Readable([]) && Rest([]) == []
  {
  }

  /** Log.Reader: from the start of every store, in the order of the segments. */
  method NewReader(log: Log) returns (r: MultiReader)
    requires log.Valid()
    ensures fresh(r) && fresh(r.readers) && |r.readers| == |log.segments|
    ensures forall i :: 0 <= i < |r.readers| ==>
              && fresh(r.readers[i]) && r.readers[i].off == 0 && r.readers[i].store == log.segments[i].store
    ensures r.Valid() && r.Remaining() == Stream(log.State().segments)
  {
    hide Segment.Valid, Segment.Clean, Good, FileMap, Readable, Rest, Stream, Views;
    var rs: seq<OriginReader> := [];
    var i := 0;
    while i < |log.segments|
      invariant 0 <= i <= |log.segments| && |rs| == i
      invariant forall j :: 0 <= j < i ==> fresh(rs[j]) && rs[j].off == 0 && rs[j].store == log.segments[j].store
      invariant forall j, k :: 0 <= j < k < i ==> rs[j] != rs[k]
    {
      var o := new OriginReader(log.segments[i].store);
      rs := rs + [o];
      i := i + 1;
    }
    r := new MultiReader(rs);
    StartsReadable(log, rs);
    StartsFull(rs, log.segments);
  }

  lemma {:induction false} StartsReadable(log: Log, rs: seq<OriginReader>)
    requires log.Valid() && |rs| == |log.segments| && forall i, j :: 0 <= i < j < |rs| ==> rs[i] != rs[j]
    requires forall i :: 0 <= i < |rs| ==> rs[i].off == 0 && rs[i].store == log.segments[i].store
    ensures Readable(rs) && forall i :: 0 <= i < |rs| ==> log.segments[i].Clean()
  {
    hide Segment.Valid, Segment.Clean, Good, FileMap;
    forall i, j | 0 <= i < j < |rs|
      ensures rs[i].store != rs[j].store && rs[i].store.file != rs[j].store.file
    {
      assert log.segments[i].Apart(log.segments[j]);
    }
  }

  lemma {:induction false} StartsFull(rs: seq<OriginReader>, ss: seq<Segment>)
    requires |rs| == |ss| && Readable(rs)
    requires forall i :: 0 <= i < |rs| ==> rs[i].off == 0 && rs[i].store == ss[i].store && ss[i].Clean()
    ensures Rest(rs) == Stream(Views(ss))
  {
    hide Print;
    if rs != [] {
      StartsFull(rs[1..], ss[1..]);
      assert Views(ss)[1..] == Views(ss[1..]);
      assert rs[0].Unread() == Print(ss[0].records);
    }
  }

  // ---------- a snapshot persisted while the log is in use

  /** The readers left are those of the captured stores from the current one on,
      and only the first has moved. */
  ghost predicate Reading(ss: seq<Segment>, owned: set<object>, r: MultiReader, s: S.State)
    reads r, r.readers
  {
    && r !in owned && s.current <= s.captured <= |ss| && |r.readers| == s.captured - s.current
    && (forall k :: 0 <= k < |r.readers| ==>
          && r.readers[k] !in owned && r.readers[k].store == ss[s.current + k].store
          && r.readers[k].off == if k == 0 then s.off else 0)
    && forall j, k :: 0 <= j < k < |r.readers| ==> r.readers[j] != r.readers[k]
  }

  /** The log and the reader are where `s` says. */
  ghost predicate At(log: Log, r: MultiReader, s: S.State)
    reads log, log.dir, log.Repr, r, r.readers
  {
    && log.Valid() && log.State() == s.log && Reading(log.segments, log.Repr, r, s)
    && (s.current < s.captured ==> s.off <= |Print(log.State().segments[s.current].records)|)
  }

  lemma {:induction false} AtReadable(log: Log, r: MultiReader, s: S.State)
    requires At(log, r, s) && s.current < s.captured
    ensures r.Valid() && r.readers != [] && s.captured <= |log.segments| && r !in log.Repr && r.readers[0] !in log.Repr
    ensures r.readers[0].store == log.segments[s.current].store && r.readers[0].off == s.off
    ensures log.segments[s.current].Within(log.Repr)
    ensures r.readers[0].store.Contents() == Print(s.log.segments[s.current].records)
    ensures log.Valid() && log.State() == s.log && Separate(r.readers)
    ensures forall k :: 0 <= k < |r.readers| ==> r.readers[k].store in log.Repr && r.readers[k].store.file in log.Repr
  {
    hide Segment.Valid, Print, Good, FileMap;
    forall i, j | 0 <= i < j < |r.readers|
      ensures r.readers[i].store != r.readers[j].store && r.readers[i].store.file != r.readers[j].store.file
    {
      assert log.segments[s.current + i].Apart(log.segments[s.current + j]);
    }
    forall i | 0 <= i < |r.readers|
      ensures r.readers[i].Valid()
    {
      assert log.segments[s.current + i].Clean();
    }
    forall i | 0 <= i < |r.readers|
      ensures r.readers[i].store in log.Repr && r.readers[i].store.file in log.Repr
    {
      assert log.segments[s.current + i].Within(log.Repr);
    }
  }

  lemma {:induction false} StartsAt(log: Log, r: MultiReader)
    requires log.Valid() && r.Valid() && r !in log.Repr && |r.readers| == |log.segments|
    requires forall i :: 0 <= i < |r.readers| ==>
               r.readers[i] !in log.Repr && r.readers[i].off == 0 && r.readers[i].store == log.segments[i].store
    ensures At(log, r, S.Start(log.State()))
  {
    hide Segment.Valid, Segment.Clean, Log.Structured, Good, Print;
  }

  /** An append by another client. */
  method TakeAppend(log: Log, r: MultiReader, ghost s: S.State, record: Record)
    requires At(log, r, s) && Next(log.State()) + 1 < TWO_64
    modifies log, log.dir, log.Repr
    ensures At(log, r, s.(log := LogSpec.Append(s.log, record)))
    ensures fresh(log.Repr - old(log.Repr))
  {
    hide Segment.Valid, Segment.Clean, Log.Structured, Log.Valid, Good, Print, LogSpec.Append, Reading;
    AtBounds(log, r, s);
    if s.current < s.captured {
      S.StoreGrows(log.State(), record, s.current);
    }
    ghost var ss, owned := log.segments, log.Repr;
    var _ := log.Append(record);
    ReadersKept(ss, owned, log.segments, log.Repr, r, s, LogSpec.Append(s.log, record));
  }

  /** An append touches none of the readers, and only adds a segment. */
  twostate lemma {:induction false} ReadersKept(
    new ss: seq<Segment>, new owned: set<object>, new ss': seq<Segment>, new owned': set<object>, new r: MultiReader,
    new s: S.State, new grown: LogState)
    requires old(allocated(ss)) && old(allocated(owned)) && old(allocated(r)) && old(Reading(ss, owned, r, s))
    requires ss <= ss' && fresh(owned' - owned) && unchanged(r)
    requires forall k :: 0 <= k < |r.readers| ==> unchanged(r.readers[k])
    ensures Reading(ss', owned', r, s.(log := grown))
  {
  }

  /** One read from the snapshot. */
  method TakeRead(log: Log, r: MultiReader, ghost s: S.State, n: nat) returns (p: bytes)
    requires At(log, r, s) && s.current < s.captured
    modifies r, r.readers, log.Repr
    ensures At(log, r, S.ReadStep(s, n)) && S.ReadStep(s, n).out == s.out + p
    ensures unchanged(log) && forall q :: q in r.readers ==> q in old(r.readers)
  {
    hide Segment.Valid, Segment.Clean, Log.Valid, Log.Structured, Good, Print, Readable, Rest, Reading, S.ReadStep;
    AtReadable(log, r, s);
    var eof;
    ghost var first := r.readers[0];
    p, eof := r.ReadFirst(n);
    S.ReadIs(s, n, p, eof, first.Unread());
    log.FlushKeeps(s.current);
    ReadersMoved(log.segments, log.Repr, r, s, p, eof);
  }

  twostate lemma {:induction false} ReadersMoved(
    new ss: seq<Segment>, new owned: set<object>, new r: MultiReader, new s: S.State, new p: bytes, new eof: bool)
    requires old(allocated(ss)) && old(allocated(owned)) && old(allocated(r))
    requires old(Reading(ss, owned, r, s)) && old(r.readers) != []
    requires r.readers == if eof then old(r.readers[1..]) else old(r.readers)
    requires forall k :: 0 < k < |old(r.readers)| ==> unchanged(old(r.readers)[k])
    requires old(r.readers)[0].off == s.off + |p|
    ensures Reading(ss, owned, r, if eof then s.(current := s.current + 1, off := 0, out := s.out + p)
                                  else s.(off := s.off + |p|, out := s.out + p))
  {
  }

  /** One append by a client, or one read from the snapshot. */
  method TakeStep(log: Log, r: MultiReader, ghost s: S.State, step: S.Step) returns (p: bytes)
    requires At(log, r, s) && S.Enabled(s, step)
    modifies log, log.dir, log.Repr, r, r.readers
    ensures At(log, r, S.Do(s, step)) && S.Do(s, step).out == s.out + p
    ensures fresh(log.Repr - old(log.Repr)) && forall q :: q in r.readers ==> q in old(r.readers)
  {
    hide At, Good, Print, LogSpec.Append, S.ReadStep;
    AtBounds(log, r, s);
    match step {
      case DoAppend(record) =>
        TakeAppend(log, r, s, record);
        p := [];
      case DoRead(n) =>
        p := TakeRead(log, r, s, n);
    }
  }

  lemma {:induction false} AtBounds(log: Log, r: MultiReader, s: S.State)
    requires At(log, r, s)
    ensures log.Valid() && log.State() == s.log && r !in log.Repr && s.captured <= |s.log.segments|
    ensures forall k :: 0 <= k < |r.readers| ==> r.readers[k] !in log.Repr
  {
  }

  /** Persist: the snapshot is read, a piece at a time, while others append.  Read
      to its end, it holds the records up to one offset between the next ones at
      the start and at the end. */
  method Persist(log: Log, steps: seq<S.Step>) returns (sink: bytes)
    requires log.Valid() && S.Legal(S.Start(log.State()), steps)
    modifies log, log.dir, log.Repr
    ensures var s := S.Run(S.Start(old(log.State())), steps);
            && log.Valid() && log.State() == s.log && sink == s.out
            && (s.Done() ==> exists end: nat :: S.SnapshotOf(old(log.State()), s, end))
  {
    hide Segment.Valid, Segment.Clean, Log.Structured, Good, Print, At, S.Do, S.Enabled, S.SnapshotOf;
    ghost var s := S.Start(log.State());
    ghost var goal := S.Run(s, steps);
    var r := NewReader(log);
    StartsAt(log, r);
    sink := [];
    var i := 0;
    while i < |steps|
      invariant 0 <= i <= |steps| && At(log, r, s) && sink == s.out
      invariant fresh(log.Repr - old(log.Repr)) && fresh(r)
      invariant forall k :: 0 <= k < |r.readers| ==> fresh(r.readers[k])
      invariant S.Legal(s, steps[i..]) && S.Run(s, steps[i..]) == goal
    {
      assert steps[i..][1..] == steps[i + 1..];
      ghost var mid, readers := log.Repr, r.readers;
      var p := TakeStep(log, r, s, steps[i]);
      assert log.Repr - old(log.Repr) <= (mid - old(log.Repr)) + (log.Repr - mid);
      assert forall k :: 0 <= k < |r.readers| ==> r.readers[k] in readers;
      sink := sink + p;
      s := S.Do(s, steps[i]);
      i := i + 1;
    }
    assert steps[|steps|..] == [];
    AtBounds(log, r, s);
    if s.Done() {
      S.SnapshotConsistent(old(log.State()), steps);
    }
  }
}
