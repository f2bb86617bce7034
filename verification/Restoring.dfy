// Snapshot and restore of the state machine (internal/log/distributed.go).
module Restoring {
  import opened Bytes
  import opened Wrappers
  import opened Codec
  import opened Framing
  import opened LogSpec
  import opened LogTheorems

  ghost function AppendAll(st: LogState, rs: seq<Record>): LogState
    requires Good(st) && Next(st) + |rs| < TWO_64
    decreases |rs|
  {
    if rs == [] then st
    else
      AppendAdds(st, rs[0]);
      AppendAll(Append(st, rs[0]), rs[1..])
  }

  /** Appending overwrites the offsets that the records arrive with. */
  function Restamp(rs: seq<Record>, first: nat): (r: seq<Record>)
    requires first + |rs| < TWO_64
    ensures |r| == |rs| && forall k :: 0 <= k < |rs| ==> r[k] == Stamp(rs[k], first + k)
  {
    seq(|rs|, k requires 0 <= k < |rs| => Stamp(rs[k], first + k))
  }

  lemma {:induction false} AppendAllAdds(st: LogState, rs: seq<Record>)
    requires Good(st) && Next(st) + |rs| < TWO_64
    ensures Good(AppendAll(st, rs)) && AppendAll(st, rs).limits == st.limits && AppendAll(st, rs).initial == st.initial
    ensures Contents(AppendAll(st, rs)) == Contents(st) + Restamp(rs, Next(st))
    ensures Lowest(AppendAll(st, rs)) == Lowest(st) && Next(AppendAll(st, rs)) == Next(st) + |rs|
    decreases |rs|
  {
    hide Good, Append, Contents, Restamp;
    if rs == [] {
      assert Contents(st) + Restamp(rs, Next(st)) == Contents(st);
    } else {
      AppendAdds(st, rs[0]);
      KeepsLimits(st, rs[0]);
      var st' := Append(st, rs[0]);
      AppendAllAdds(st', rs[1..]);
      assert [Stamp(rs[0], Next(st))] + Restamp(rs[1..], Next(st')) == Restamp(rs, Next(st));
    }
  }

  lemma {:induction false} AppendAllAppend(st: LogState, rs: seq<Record>, r: Record)
    requires Good(st) && Next(st) + |rs| + 1 < TWO_64
    ensures Good(AppendAll(st, rs)) && Next(AppendAll(st, rs)) + 1 < TWO_64
    ensures AppendAll(st, rs + [r]) == Append(AppendAll(st, rs), r)
    decreases |rs|
  {
    hide Good, Append;
    AppendAllAdds(st, rs);
    AppendAdds(st, (rs + [r])[0]);
    if rs == [] {
      assert (rs + [r])[1..] == [];
    } else {
      assert (rs + [r])[1..] == rs[1..] + [r];
      AppendAllAppend(Append(st, rs[0]), rs[1..], r);
    }
  }

  /** The records of a stream can be stored from the first one's offset on. */
  predicate Fits(b: bytes) {
    AllFit(Parse(b).records)
  }

  predicate AllFit(rs: seq<Record>) {
    rs != [] ==> rs[0].offset + |rs| < TWO_64
  }

  /** fsm.Restore, given the intended Reset: nothing happens on a stream without a
      record; otherwise the log is emptied, moved to the first record's offset and
      refilled with every record that parses. */
  ghost function Restore(st: LogState, b: bytes): LogState
    requires GoodLimits(st.limits) && Fits(b)
  {
    var rs := Parse(b).records;
    if rs == [] then st
    else
      FreshGood(st.limits, rs[0].offset);
      AppendAll(Reset(st, rs[0].offset), rs)
  }

  /** Two logs hold the same records at the same offsets. */
  ghost predicate SameRecords(a: LogState, b: LogState) {
    a.segments != [] && b.segments != [] && Lowest(a) == Lowest(b) && Next(a) == Next(b) && Contents(a) == Contents(b)
  }

  /** Records whose offsets run up from `first` are restored as they were. */
  lemma {:induction false} RestampKeeps(rs: seq<Record>, first: nat)
    requires first + |rs| < TWO_64
    requires forall k :: 0 <= k < |rs| ==> rs[k].offset == first + k
    ensures Restamp(rs, first) == rs
  {
  }

  /** Restoring printed records with consecutive offsets brings back exactly those. */
  lemma {:induction false} RestorePrinted(target: LogState, rs: seq<Record>, first: nat)
    requires GoodLimits(target.limits) && rs != [] && first + |rs| < TWO_64
    requires forall k :: 0 <= k < |rs| ==> rs[k].offset == first + k
    ensures Parse(Print(rs)) == Parsed(rs, None) && Fits(Print(rs))
    ensures var st := Restore(target, Print(rs));
            Good(st) && st.limits == target.limits && Lowest(st) == st.initial == first && Contents(st) == rs
  {
    hide Good, Parse, Print;
    ParsePrint(rs);
    Refilled(target, rs, first);
  }

  lemma {:induction false} Refilled(target: LogState, rs: seq<Record>, first: nat)
    requires GoodLimits(target.limits) && rs != [] && first + |rs| < TWO_64
    requires forall k :: 0 <= k < |rs| ==> rs[k].offset == first + k
    ensures Good(Reset(target, first)) && Next(Reset(target, first)) == first
    ensures var st := AppendAll(Reset(target, first), rs);
            Good(st) && st.limits == target.limits && Lowest(st) == st.initial == first && Contents(st) == rs
  {
    hide Good, AppendAll;
    FreshGood(target.limits, first);
    AppendAllAdds(Reset(target, first), rs);
    RestampKeeps(rs, first);
    assert [] + rs == rs;
  }

  /** Restoring a snapshot of any log into any other, whatever the two sets of
      segment limits: a stream cut after `n` bytes gives the records whose frames
      are whole, at their own offsets. */
  lemma {:induction false} RestoreCut(source: LogState, target: LogState, n: nat)
    requires Good(source) && GoodLimits(target.limits) && n <= |Stream(source.segments)|
    ensures Fits(Stream(source.segments)[..n])
    ensures var k := WholeFrames(Contents(source), n);
            var st := Restore(target, Stream(source.segments)[..n]);
            if k == 0 then st == target
            else
              && Good(st) && st.limits == target.limits
              && Lowest(st) == Lowest(source) && Contents(st) == Contents(source)[..k]
  {
    hide Good, Stream, Parse, AppendAll, Print, Marshal, WholeFrames, Flatten;
    var rs, b := Contents(source), Stream(source.segments);
    StreamIsPrint(source.segments);
    ParseTruncated(rs, n);
    ContentsContiguous(source);
    if Parse(b[..n]).records != [] {
      Refilled(target, rs[..WholeFrames(rs, n)], Lowest(source));
    }
  }

  /** Snapshot, then restore: the identity. */
  lemma {:induction false} RestoreSnapshot(source: LogState, target: LogState)
    requires Good(source) && GoodLimits(target.limits)
    ensures Fits(Stream(source.segments))
    ensures Parse(Stream(source.segments)) == Parsed(Contents(source), None)
    ensures if Contents(source) == [] then Restore(target, Stream(source.segments)) == target
            else
              && Good(Restore(target, Stream(source.segments)))
              && SameRecords(Restore(target, Stream(source.segments)), source)
  {
    hide Good, Stream, Parse, AppendAll, Restore;
    var b := Stream(source.segments);
    StreamIsPrint(source.segments);
    ParsePrint(Contents(source));
    WholeStream(Contents(source));
    assert b[..|b|] == b;
    RestoreCut(source, target, |b|);
    ContentsContiguous(source);
    if Contents(source) != [] {
      ContentsContiguous(Restore(target, b));
      assert Contents(source)[..|Contents(source)|] == Contents(source);
    }
  }

  lemma {:induction false} WholeStream(rs: seq<Record>)
    ensures WholeFrames(rs, |Print(rs)|) == |rs|
  {
    if rs != [] {
      WholeStream(rs[1..]);
    }
  }
}
