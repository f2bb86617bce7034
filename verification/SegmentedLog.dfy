// internal/log/log.go: the segmented log on disk.
module SegmentedLog {
  import opened Bytes
  import opened Wrappers
  import opened Codec
  import opened Framing
  import opened LogSpec
  import opened Files
  import opened IndexTable
  import opened LogSegment
  import opened LogTheorems
  import opened Listing

  ghost function Views(ss: seq<Segment>): (vs: seq<SegmentState>)
    reads set s | s in ss
    ensures |vs| == |ss|
    ensures forall i :: 0 <= i < |ss| ==> vs[i] == ss[i].View()
  {
    seq(|ss|, i requires 0 <= i < |ss| reads set s | s in ss => ss[i].View())
  }

  lemma {:induction false} FindIs(vs: seq<SegmentState>, off: nat, strict: bool, i: nat)
    requires i <= |vs| && (i < |vs| ==> Covers(vs[i], off, strict))
    requires forall j :: 0 <= j < i ==> !Covers(vs[j], off, strict)
    ensures Find(vs, off, strict) == i
  {
  }

  lemma {:induction false} ImageOpenable(data: bytes, pages: bytes, s: SegmentState, l: Limits)
    requires ClosedImage(data, pages, s, l)
    ensures Openable(pages, l) && s.Next() < TWO_64
  {
  }

  /** The index files of the ascending bases of `vs`, and the bytes each held when closed. */
  predicate ClosedPages(vs: seq<SegmentState>, files: map<nat, Pair>, pages: seq<bytes>, l: Limits) {
    && |pages| == |vs| && GoodLimits(l)
    && (forall j :: 0 <= j < |vs| ==> vs[j].base < TWO_64 && vs[j].base in files && Openable(pages[j], l))
    && (forall j, k :: 0 <= j < k < |vs| ==> files[vs[j].base].index != files[vs[k].base].index)
  }

  lemma {:induction false} ClosedPagesAt(
      vs: seq<SegmentState>, files: map<nat, Pair>, pages: seq<bytes>, l: Limits, j: nat)
    requires ClosedPages(vs, files, pages, l) && j < |vs|
    ensures |pages| == |vs| && Openable(pages[j], l) && vs[j].base in files
    ensures forall k :: 0 <= k < |vs| && k != j ==>
            vs[k].base in files && files[vs[k].base].index != files[vs[j].base].index
  {
  }

  lemma {:induction false} ResizedOpenable(pages: bytes, l: Limits)
    requires Openable(pages, l)
    ensures Openable(Resized(pages, l.maxIndex), l)
  {
  }

  /** Every segment in `ss` is valid, made of some of `objects` and run under the limits `l`. */
  ghost predicate AllValid(ss: seq<Segment>, objects: set<object>, l: Limits)
    reads objects
  {
    forall i :: 0 <= i < |ss| ==> ss[i].Within(objects) && ss[i].Valid() && ss[i].Clean() && ss[i].limits == l
  }

  predicate Disjoint(ss: seq<Segment>) {
    forall i, j :: 0 <= i < j < |ss| ==> ss[i].Apart(ss[j])
  }

  lemma {:induction false} DisjointAppend(ss: seq<Segment>, s: Segment)
    requires Disjoint(ss) && forall j :: 0 <= j < |ss| ==> ss[j].Apart(s)
    ensures Disjoint(ss + [s])
  {
    hide Segment.Apart;
  }

  lemma {:induction false} AllValidAppend(
      ss: seq<Segment>, s: Segment, before: set<object>, after: set<object>, l: Limits)
    requires forall j :: 0 <= j < |ss| ==> ss[j].Within(before) && ss[j].limits == l
    requires forall j :: 0 <= j < |ss| ==> ss[j].Valid() && ss[j].Clean()
    requires before <= after && s.Within(after) && s.Valid() && s.Clean() && s.limits == l
    ensures AllValid(ss + [s], after, l)
  {
    hide Segment.Valid, Segment.Clean;
  }

  function FileMap(ss: seq<Segment>): map<nat, Pair> {
    if ss == [] then map[]
    else FileMap(ss[..|ss| - 1])[Last(ss).baseOffset := Last(ss).Files()]
  }

  lemma {:induction false} FileMapAppend(ss: seq<Segment>, s: Segment)
    ensures FileMap(ss + [s]) == FileMap(ss)[s.baseOffset := s.Files()]
  {
    assert (ss + [s])[..|ss|] == ss;
  }

  lemma {:induction false} FileMapFind(ss: seq<Segment>, base: nat) returns (i: nat)
    requires base in FileMap(ss)
    ensures i < |ss| && ss[i].baseOffset == base && FileMap(ss)[base] == ss[i].Files()
  {
    i := |ss| - 1;
    if ss[i].baseOffset != base {
      i := FileMapFind(ss[..i], base);
    }
  }

  /** Bases ascend, so every segment's files are found under its own base. */
  lemma {:induction false} FileMapAt(ss: seq<Segment>, vs: seq<SegmentState>, i: nat)
    requires |ss| == |vs| && Contiguous(vs) && i < |ss|
    requires forall j :: 0 <= j < |ss| ==> ss[j].baseOffset == vs[j].base
    ensures ss[i].baseOffset in FileMap(ss) && FileMap(ss)[ss[i].baseOffset] == ss[i].Files()
  {
    var n := |ss| - 1;
    if i < n {
      Ordered(vs, i, n);
      FileMapAt(ss[..n], vs[..n], i);
    }
  }

  /** Bases ascend, so removing the first segment's name leaves the others'. */
  lemma {:induction false} RemoveFirst(ss: seq<Segment>, vs: seq<SegmentState>)
    requires ss != [] && |ss| == |vs| && Contiguous(vs)
    requires forall i :: 0 <= i < |ss| ==> ss[i].baseOffset == vs[i].base
    ensures FileMap(ss) - {ss[0].baseOffset} == FileMap(ss[1..])
  {
    if |ss| > 1 {
      var n := |ss| - 1;
      Ordered(vs, 0, n);
      assert Contiguous(vs[..n]);
      RemoveFirst(ss[..n], vs[..n]);
      assert ss[..n][1..] == ss[1..][..n - 1];
    }
  }

  lemma {:induction false} LastAppended(ss: seq<Segment>, vs: seq<SegmentState>, r: Record)
    requires ss != [] && |vs| == |ss| && Last(vs).Next() < TWO_64
    requires forall i :: 0 <= i < |ss| - 1 ==> ss[i].View() == vs[i]
    requires Last(ss).View() == AppendRecord(Last(vs), r)
    ensures Views(ss) == AppendLast(vs, r)
  {
    hide AppendRecord;
  }

  lemma {:induction false} EmptyImage(base: uint64, l: Limits)
    requires GoodLimits(l)
    ensures ClosedImage([], [], SegmentState(base, []), l)
  {
  }

  function Bases(vs: seq<SegmentState>): (bs: seq<nat>)
    ensures |bs| == |vs|
    ensures forall i :: 0 <= i < |vs| ==> bs[i] == vs[i].base
  {
    seq(|vs|, i requires 0 <= i < |vs| => vs[i].base)
  }

  function BaseSet(vs: seq<SegmentState>): set<nat> {
    set b | b in Bases(vs)
  }

  /** What a clean Close leaves in the directory of a log with segments `vs`. */
  ghost predicate Holds(dir: Dir, vs: seq<SegmentState>, l: Limits)
    reads dir, Stores(dir.files), Indexes(dir.files), AllPages(dir.files)
  {
    && dir.present && GoodLimits(l) && Contiguous(vs)
    && dir.files.Keys == BaseSet(vs)
    && FilesApart(dir.files)
    && ClosedFrom(dir.files, vs, 0, l)
  }

  ghost predicate Matched(ss: seq<Segment>, vs: seq<SegmentState>, files: map<nat, Pair>)
    reads ss
  {
    && |ss| <= |vs|
    && forall j :: 0 <= j < |ss| ==> ss[j].View() == vs[j] && vs[j].base in files && ss[j].Files() == files[vs[j].base]
  }

  /** The files of all but the first `n` of `vs` are as a clean Close left them. */
  ghost predicate ClosedFrom(files: map<nat, Pair>, vs: seq<SegmentState>, n: nat, l: Limits)
    reads Stores(files), Indexes(files), AllPages(files)
  {
    forall j :: n <= j < |vs| ==>
      && vs[j].base in files
      && ClosedImage(files[vs[j].base].store.data, files[vs[j].base].index.pages[..], vs[j], l)
  }

  ghost function PagesOf(files: map<nat, Pair>, vs: seq<SegmentState>): (ps: seq<bytes>)
    requires forall j :: 0 <= j < |vs| ==> vs[j].base in files
    reads Indexes(files), AllPages(files)
    ensures |ps| == |vs|
    ensures forall j :: 0 <= j < |vs| ==> ps[j] == files[vs[j].base].index.pages[..]
  {
    seq(|vs|, j requires 0 <= j < |vs| reads Indexes(files), AllPages(files) => files[vs[j].base].index.pages[..])
  }

  lemma {:induction false} ClosedNext(files: map<nat, Pair>, vs: seq<SegmentState>, n: nat, l: Limits)
    requires ClosedFrom(files, vs, n, l) && n < |vs|
    ensures vs[n].base in files
    ensures ClosedImage(files[vs[n].base].store.data, files[vs[n].base].index.pages[..], vs[n], l)
    ensures Openable(files[vs[n].base].index.pages[..], l)
  {
    ImageOpenable(files[vs[n].base].store.data, files[vs[n].base].index.pages[..], vs[n], l);
  }

  lemma {:induction false} MatchedAppend(ss: seq<Segment>, s: Segment, vs: seq<SegmentState>, files: map<nat, Pair>)
    requires |ss| < |vs|
    requires Matched(ss, vs, files)
    requires s.View() == vs[|ss|] && vs[|ss|].base in files && s.Files() == files[vs[|ss|].base]
    ensures Matched(ss + [s], vs, files)
  {
  }

  /** Limits left at zero become 1024. */
  function Defaulted(l: Limits): (d: Limits)
    ensures if l.maxStore == 0 then d.maxStore == 1024 else d.maxStore == l.maxStore
    ensures if l.maxIndex == 0 then d.maxIndex == 1024 else d.maxIndex == l.maxIndex
  {
    Limits(if l.maxStore == 0 then 1024 else l.maxStore, if l.maxIndex == 0 then 1024 else l.maxIndex)
  }

  class Log {
    const dir: Dir
    var limits: Limits
    var initialOffset: uint64
    var segments: seq<Segment>
    var activeSegment: Segment?
    ghost var Repr: set<object>

    ghost function State(): LogState
      reads this, segments
    {
      LogState(limits, initialOffset, Views(segments))
    }

    /** The directory names the files of the segments and no others. */
    ghost predicate Named()
      reads this, dir
    {
      dir.present && dir.files == FileMap(segments)
    }

    /** Every segment is valid, none shares an object with another, and the last is active. */
    ghost predicate Structured()
      reads this, dir, Repr
      ensures Structured() ==> && this !in Repr && dir !in Repr && segments != [] && activeSegment == Last(segments)
                               && activeSegment.Within(Repr) && activeSegment.limits == limits
                               && activeSegment.Valid() && activeSegment.Clean()
    {
      && this !in Repr && dir !in Repr
      && segments != [] && activeSegment == Last(segments)
      && AllValid(segments, Repr, limits)
      && Disjoint(segments)
      && Named()
    }

    lemma {:induction false} Parts()
      requires Structured()
      ensures AllValid(segments, Repr, limits) && Named() && Disjoint(segments)
    {
    }

    ghost predicate Valid()
      reads this, dir, Repr
      ensures Valid() ==> Structured() && GoodLimits(limits)
    {
      Structured() && Good(State())
    }

    constructor (d: Dir, l: Limits, initial: uint64)
      ensures dir == d && segments == [] && Repr == {} && initialOffset == initial
      ensures limits == Defaulted(l)
    {
      dir, segments, activeSegment, initialOffset, Repr := d, [], null, initial, {};
      limits := Defaulted(l);
    }

    /** Opens the segment at `base`, creating its files if they do not exist.  The
        caller names the records `rs` it expects to find. */
    method NewSegment(base: uint64, ghost rs: seq<Record>) returns (s: Segment)
      requires Openable(dir.Pages(base), limits)
      modifies this`segments, this`activeSegment, this`Repr, dir`files
      modifies if base in dir.files then {dir.files[base].index} else {}
      ensures segments == old(segments) + [s] && activeSegment == s
      ensures Repr == old(Repr) + s.Repr() && s.Within(Repr)
      ensures fresh(s.Repr() - old(dir.Objects(base)))
      ensures dir.files == old(dir.files)[base := s.Files()]
      ensures s.baseOffset == base && s.limits == limits && s.records == rs && s.Opened()
      ensures fresh(s) && fresh(s.store) && fresh(s.index)
      ensures if base in old(dir.files) then s.Files() == old(dir.files[base])
              else fresh(s.store.file) && fresh(s.index.file)
      ensures if base in old(dir.files) && |old(dir.Pages(base))| == limits.maxIndex
              then s.index.mmap == old(dir.files[base].index.pages) else fresh(s.index.mmap)
      ensures s.store.Contents() == old(dir.Data(base)) && s.store.buf == []
      ensures s.nextOffset == NextAfter(base, Entries(old(dir.Pages(base)))) && s.index.size == |old(dir.Pages(base))|
      ensures s.index.mmap == s.index.file.pages && s.index.mmap[..] == Resized(old(dir.Pages(base)), limits.maxIndex)
      ensures ClosedImage(old(dir.Data(base)), old(dir.Pages(base)), SegmentState(base, rs), limits) ==>
              s.Valid() && s.Clean()
    {
      hide Views, Segment.Valid, Segment.Clean, Entries, ClosedImage, Print, NextAfter, Resized;
      ghost var data, pages := dir.Data(base), dir.Pages(base);
      var f := dir.Open(base);
      s := new Segment(f, base, limits, rs);
      if ClosedImage(data, pages, SegmentState(base, rs), limits) {
        s.ImageOpens(data, pages);
      }
      segments := segments + [s];
      activeSegment := s;
      Repr := Repr + s.Repr();
    }

    /** Adding a segment keeps the structure when the base has no files yet. */
    method AddSegment(base: uint64)
      requires this !in Repr && dir !in Repr && GoodLimits(limits)
      requires AllValid(segments, Repr, limits) && Named() && Disjoint(segments)
      requires dir.Objects(base) <= Repr && (base in dir.files ==> |dir.Pages(base)| == limits.maxIndex)
      modifies this`segments, this`activeSegment, this`Repr, dir`files
      modifies if base in dir.files then {dir.files[base].index} else {}
      ensures |segments| == |old(segments)| + 1 && segments[..|old(segments)|] == old(segments)
      ensures activeSegment == Last(segments) && fresh(activeSegment) && activeSegment.baseOffset == base
      ensures activeSegment.Opened() && activeSegment.store.size == |old(dir.Data(base))|
      ensures fresh(Repr - old(Repr)) && activeSegment.Within(Repr)
      ensures if base in old(dir.files)
              then activeSegment.index.IsMaxed() && activeSegment.View() == SegmentState(base, [])
              else Structured() && Views(segments) == old(Views(segments)) + [SegmentState(base, [])]
    {
      hide Views, Segment.Valid, Segment.Clean, FileMap, Print, Entries, EntriesFor, NextAfter, Resized, ClosedImage;
      hide AllValid, Disjoint, Segment.Apart;
      EmptyImage(base, limits);
      var s := NewSegment(base, []);
      assert Repr - old(Repr) <= s.Repr() - old(dir.Objects(base));
      if base !in old(dir.files) {
        FileMapAppend(old(segments), s);
        Untouched(s);
        DisjointAppend(old(segments), s);
        AllValidAppend(old(segments), s, old(Repr), Repr, limits);
        assert Views(segments) == old(Views(segments)) + [s.View()];
      }
    }

    /** What is already open stays as it was, and apart from a segment on new files. */
    twostate lemma {:induction false} Untouched(new s: Segment)
      requires old(AllValid(segments, Repr, limits)) && limits == old(limits)
      requires forall o :: o in old(Repr) ==> unchanged(o)
      requires fresh(s) && fresh(s.store) && fresh(s.store.file) && fresh(s.index) && fresh(s.index.file)
               && fresh(s.index.mmap)
      ensures forall t :: t in old(segments) ==>
                && t.Within(old(Repr)) && t.limits == limits && t.Valid() && t.Clean() && t.Apart(s)
                && t.View() == old(t.View())
    {
      hide Segment.Valid, Segment.Clean;
      forall t | t in old(segments)
        ensures && t.Within(old(Repr)) && t.limits == limits && t.Valid() && t.Clean() && t.Apart(s)
                && t.View() == old(t.View())
      {
        var j :| 0 <= j < |old(segments)| && old(segments)[j] == t;
      }
    }

    /** The files the directory holds at `base` are those of an open segment. */
    lemma {:induction false} FilesInUse(base: nat)
      requires Valid()
      ensures base in dir.files ==>
                && base < TWO_64 && dir.files[base].index in Repr && dir.files[base].index.pages in Repr
                && |dir.Pages(base)| == limits.maxIndex && |dir.Data(base)| < TWO_63
      ensures dir.Objects(base) <= Repr
      ensures base == Next(State()) && Last(segments).records != [] ==> base !in dir.files
    {
      hide Segment.Clean, FileMap, Print, Entries, EntriesFor;
      if base in dir.files {
        var i := FileMapFind(segments, base);
        var s := segments[i];
        assert s.Within(Repr) && s.Valid() && s.Clean();
        assert |s.store.Contents()| < TWO_63 by {
          assert GoodSegment(Views(segments)[i], limits);
          s.CleanSize();
        }
        if i < |segments| - 1 {
          Ordered(Views(segments), i, |segments| - 1);
        }
      }
    }

    /** The rotation under Append's lock. */
    method Rotate(highest: nat)
      requires Valid() && Next(State()) + 1 < TWO_64 && highest <= Highest(State())
      modifies this, dir, Repr
      ensures unchanged(`limits) && unchanged(`initialOffset) && unchanged(dir`present)
      ensures segments != [] && activeSegment == Last(segments) && old(segments) <= segments
      ensures activeSegment.Opened() && activeSegment.store.size < TWO_63
      ensures fresh(Repr - old(Repr)) && activeSegment.Within(Repr)
      ensures old(InStep(State(), highest)) ==>
                && Structured()
                && Views(segments) == LogSpec.Rotate(old(Views(segments)), limits, highest + 1)
      ensures forall t :: t in old(segments) ==> t.View() == old(t.View())
      ensures !old(InStep(State(), highest)) ==>
                && |segments| == |old(segments)| + 1 && segments[..|old(segments)|] == old(segments)
                && fresh(activeSegment) && activeSegment.View() == SegmentState(highest + 1, [])
                && highest + 1 < old(Next(State()))
                && if highest + 1 in old(dir.files) then activeSegment.index.IsMaxed()
                   else Structured() && Views(segments) == old(Views(segments)) + [SegmentState(highest + 1, [])]
    {
      hide Views, Segment.Valid, Segment.Clean, Segment.Within, Structured, AllValid, Named, Disjoint, Good, Print;
      FilesInUse(highest + 1);
      ghost var last := Last(segments).View();
      if last.records == [] {
        EmptySegmentHasRoom(last, limits);
      }
      if activeSegment.IsMaxed() {
        Parts();
        AddSegment(highest + 1);
      }
    }

    method LowestOffset() returns (off: nat)
      requires Valid()
      ensures off == Lowest(State())
    {
      off := segments[0].baseOffset;
    }

    method HighestOffset() returns (off: nat)
      requires segments != []
      ensures off == HighestBelow(Last(segments).nextOffset)
      ensures Valid() ==> off == Highest(State())
    {
      hide Views, Segment.Valid, Segment.Clean, Good, Named;
      off := segments[|segments| - 1].nextOffset;
      if off == 0 {
        return 0;
      }
      return off - 1;
    }

    method AppendActive(record: Record) returns (r: Result<nat>)
      requires segments != [] && activeSegment == Last(segments)
      requires activeSegment.Opened() && activeSegment.store.size < TWO_63
      modifies activeSegment, activeSegment.store, activeSegment.store.file, activeSegment.index,
        activeSegment.index.mmap
      ensures old(Structured() && activeSegment.HasRoom()) ==>
                && Structured() && r == Ok(old(activeSegment.View().Next()))
                && Views(segments) == AppendLast(old(Views(segments)), record)
      ensures old(activeSegment.index.IsMaxed()) ==>
              r == Err(EndOfFile) && activeSegment.View() == old(activeSegment.View())
    {
      hide Views, Structured, Segment.Valid, Segment.Clean, AppendRecord, AppendLast;
      ghost var ordinary := Structured() && activeSegment.HasRoom();
      r := activeSegment.Append(record);
      if ordinary {
        AppendedLast(record);
      }
    }

    twostate lemma {:induction false} AppendedLast(new record: Record)
      requires old(Structured()) && unchanged(this) && unchanged(dir)
      requires forall o :: o in old(Repr) && o !in Last(segments).Repr() ==> unchanged(o)
      requires activeSegment.Valid() && activeSegment.Clean()
      requires old(activeSegment.View().Next()) < TWO_64
      requires activeSegment.View() == AppendRecord(old(activeSegment.View()), record)
      ensures Structured() && Views(segments) == AppendLast(old(Views(segments)), record)
    {
      hide Views, Segment.Valid, Segment.Clean, AppendRecord, AppendLast;
      OthersKept();
      LastAppended(segments, old(Views(segments)), record);
    }

    /** Changing the objects of the active segment leaves the others as they were. */
    twostate lemma {:induction false} OthersKept()
      requires segments != [] && old(allocated(segments)) && Disjoint(segments) && unchanged(this)
      requires old(AllValid(segments, Repr, limits))
      requires forall o :: o in old(Repr) && o !in Last(segments).Repr() ==> unchanged(o)
      requires Last(segments).Valid() && Last(segments).Clean()
      ensures AllValid(segments, Repr, limits)
      ensures forall i :: 0 <= i < |segments| - 1 ==> segments[i].View() == old(segments[i].View())
    {
      hide Views, Segment.Valid, Segment.Clean;
      forall i | 0 <= i < |segments| - 1
        ensures segments[i].Valid() && segments[i].Clean() && segments[i].View() == old(segments[i].View())
      {
        assert segments[i].Apart(Last(segments));
      }
    }

    /** Append under the lock.  In step, the append is the one the specification
        describes.  Rotating on a highest offset that other appends have overtaken
        breaks the contiguity of the segments: the record gets an offset that is
        taken, or, where that is the base of a segment, the second handle on the
        files of that segment has a full index and refuses it. */
    method AppendLocked(record: Record, highest: nat) returns (r: Result<nat>)
      requires Valid() && Next(State()) + 1 < TWO_64 && highest <= Highest(State())
      modifies this, dir, Repr
      ensures fresh(Repr - old(Repr)) && old(segments) <= segments
      ensures old(InStep(State(), highest)) ==>
                && Valid() && r == Ok(old(Next(State())))
                && State() == AppendAfter(old(State()), record, highest)
      ensures !old(InStep(State(), highest)) ==>
                && !Contiguous(Views(segments)) && highest + 1 < old(Next(State()))
                && if highest + 1 in old(dir.files)
                   then r == Err(EndOfFile) && Views(segments) == old(Views(segments)) + [SegmentState(highest + 1, [])]
                   else Structured() && r == Ok(highest + 1) && State() == AppendAfter(old(State()), record, highest)
    {
      hide Views, Segment.Valid, Segment.Clean, Structured, AppendLast, LogSpec.Rotate;
      hide LogSpec.IsMaxed, AppendRecord, LogSpec.Append, InStep, Print, Good, Contiguous;
      ghost var st, n, taken := State(), |segments|, highest + 1 in dir.files;
      if InStep(st, highest) {
        InStepIsAppend(st, record, highest);
        AppendGood(st, record);
      } else {
        OutOfStep(st, highest);
      }
      Rotate(highest);
      r := AppendActive(record);
      if !InStep(st, highest) {
        assert segments[n - 1] == old(segments)[n - 1];
        StaleRotation(Views(segments), n - 1);
        if taken {
          assert Views(segments) == st.segments + [SegmentState(highest + 1, [])];
        }
      }
    }

    lemma {:induction false} OutOfStep(st: LogState, highest: nat)
      requires Good(st) && !InStep(st, highest)
      ensures LogSpec.Rotate(st.segments, st.limits, highest + 1) == st.segments + [SegmentState(highest + 1, [])]
      ensures !IsMaxed(SegmentState(highest + 1, []), st.limits)
    {
      hide Good;
      EmptySegmentHasRoom(SegmentState(highest + 1, []), st.limits);
    }

    method Append(record: Record) returns (r: Result<nat>)
      requires Valid() && Next(State()) + 1 < TWO_64
      modifies this, dir, Repr
      ensures Valid() && fresh(Repr - old(Repr)) && old(segments) <= segments
      ensures r == Ok(old(Next(State()))) && State() == LogSpec.Append(old(State()), record)
      ensures old(var last := Last(State().segments).records;
                  |Print(last)| >= limits.maxStore || 12 * (|last| + 1) > limits.maxIndex) <==>
              |segments| == |old(segments)| + 1
      ensures |old(segments)| <= |segments| <= |old(segments)| + 1
    {
      hide Views, Segment.Valid, Segment.Clean, Structured, LogSpec.Rotate, AppendLast, Print, Contiguous;
      RotatesExactly(State(), record);
      var highest := HighestOffset();
      if Last(State().segments).records == [] {
        EmptySegmentHasRoom(Last(State().segments), limits);
      }
      r := AppendLocked(record, highest);
    }

    /** The loop of Read: the first segment that covers `off`, if any. */
    method FindSegment(off: nat, strict: bool) returns (i: nat)
      ensures i <= |segments| && (i < |segments| ==> segments[i].Covering(off, strict))
      ensures forall j :: 0 <= j < i ==> !segments[j].Covering(off, strict)
    {
      i := 0;
      while i < |segments|
        invariant i <= |segments| && forall j :: 0 <= j < i ==> !segments[j].Covering(off, strict)
      {
        var s := segments[i];
        if s.baseOffset <= off && (if strict then off < s.nextOffset else off <= s.nextOffset) {
          return;
        }
        i := i + 1;
      }
    }

    /** Read as the code has it, on any segments whose stores and indexes are open:
        the first one that covers `off` answers, or the offset is out of range. */
    method Lookup(off: uint64, strict: bool) returns (r: Result<Record>, ghost i: nat)
      requires this !in Repr && dir !in Repr && forall s :: s in segments ==> s.Within(Repr) && s.Opened()
      modifies Repr
      ensures i <= |segments| && (i < |segments| ==> segments[i].Covering(off, strict))
      ensures forall j :: 0 <= j < i ==> !segments[j].Covering(off, strict)
      ensures i == |segments| || segments[i].nextOffset <= off ==>
                r == Err(OffsetOutOfRange(off)) && forall o :: o in Repr ==> unchanged(o)
      ensures i < |segments| && off < segments[i].nextOffset ==>
                && (forall o :: o in Repr && o != segments[i].store && o != segments[i].store.file ==> unchanged(o))
                && segments[i].store.size == old(segments[i].store.size)
                && segments[i].store.Contents() == old(segments[i].store.Contents())
                && old(segments[i].store.file.data) <= segments[i].store.file.data && segments[i].Opened()
                && (old(segments[i].Valid()) ==> r == ReadSegment(segments[i].View(), off))
                && (segments[i].store.Contents() == [] ==> r == Err(EndOfFile))
    {
      hide Segment.Valid, Segment.Clean, Segment.Opened, ReadSegment;
      var found := FindSegment(off, strict);
      i := found;
      if found == |segments| || segments[found].nextOffset <= off {
        return Err(OffsetOutOfRange(off)), i;
      }
      var s := segments[found];
      assert s in segments && s.Within(Repr);
      r := s.Read(off);
    }

    method Read(off: uint64, strict: bool) returns (r: Result<Record>)
      requires Valid()
      modifies Repr
      ensures Valid() && State() == old(State())
      ensures r == LogSpec.Read(State(), off, strict)
    {
      hide Views, Segment.Valid, Segment.Clean, Good, Named, ReadSegment, Fetch, Find;
      ghost var i;
      r, i := Lookup(off, strict);
      FindIs(Views(segments), off, strict, i);
      if i < |segments| && off < segments[i].nextOffset {
        ReadInside(segments[i].View(), off);
        FlushKeeps(i);
      } else {
        NothingChanged();
      }
    }

    twostate lemma {:induction false} NothingChanged()
      requires old(Valid()) && unchanged(this) && unchanged(dir) && forall o :: o in Repr ==> unchanged(o)
      ensures Valid() && State() == old(State())
    {
      hide Segment.Valid, Segment.Clean, Good, Named;
    }

    /** Flushing the store of one segment changes nothing of the log. */
    twostate lemma {:induction false} FlushKeeps(new i: nat)
      requires old(Valid()) && unchanged(this) && unchanged(dir) && i < |segments| && old(allocated(segments))
      requires forall o :: o in Repr && o != segments[i].store && o != segments[i].store.file ==> unchanged(o)
      requires segments[i].store.size == old(segments[i].store.size)
      requires segments[i].store.Contents() == old(segments[i].store.Contents())
      ensures Valid() && State() == old(State())
    {
      hide Views, Segment.Valid, Segment.Clean, Good, Named;
      forall j | 0 <= j < |segments|
        ensures segments[j].Valid() && segments[j].Clean() && segments[j].View() == old(segments[j].View())
      {
        if j == i {
          assert segments[i].Within(Repr);
          segments[i].Flushed();
        } else {
          assert segments[j].Within(Repr) && (segments[j].Apart(segments[i]) || segments[i].Apart(segments[j]));
        }
      }
      assert Views(segments) == old(Views(segments));
    }

    /** Half way through Truncate: the first `n` segments, which looked like `views`, are removed. */
    ghost predicate Ending(views: seq<SegmentState>, n: nat)
      reads this, dir, Repr
    {
      && n <= |segments| == |views| && dir.present && dir.files == FileMap(segments[n..])
      && (forall j :: 0 <= j < |segments| ==>
            segments[j].Within(Repr) && segments[j].limits == limits && segments[j].View() == views[j])
      && (forall j :: n <= j < |segments| ==> segments[j].Valid() && segments[j].Clean())
    }

    lemma {:induction false} EndingAt(views: seq<SegmentState>, n: nat, i: nat)
      requires Ending(views, n) && n <= i < |segments|
      ensures i < |views| && segments[i].nextOffset == views[i].Next()
      ensures segments[i].Within(Repr) && segments[i].Valid() && segments[i].Clean()
    {
      hide FileMap, Segment.Clean;
    }

    /** Removing segment `i` leaves the others as they were. */
    method RemoveSegment(i: nat, ghost views: seq<SegmentState>)
      requires Ending(views, i) && i < |segments| && segments[i].Within(Repr)
      requires this !in Repr && dir !in Repr && Disjoint(segments) && Contiguous(views)
      modifies segments[i].store`buf, segments[i].store.file, segments[i].index.file, dir`files
      ensures Ending(views, i + 1)
    {
      hide Segment.Valid, Segment.Clean, FileMap, Contiguous;
      SuffixFiles(views, i);
      segments[i].Remove(dir);
      forall j | i < j < |segments|
        ensures segments[j].Valid() && segments[j].Clean()
      {
        assert segments[i].Apart(segments[j]);
      }
    }

    /** The loop of Truncate; the segments that end by `lowest + 1` are the first `k`. */
    method RemoveEnded(lowest: uint64, ghost k: nat) returns (kept: seq<Segment>)
      requires Structured() && Contiguous(Views(segments)) && k <= |segments|
      requires forall j :: 0 <= j < |segments| ==> (Views(segments)[j].Next() <= After(lowest) <==> j < k)
      modifies dir, Repr
      ensures kept == segments[k..] && dir.present && dir.files == FileMap(kept)
      ensures AllValid(kept, Repr, limits) && Disjoint(kept) && Views(kept) == old(Views(segments))[k..]
    {
      hide Views, Disjoint, Segment.Valid, Segment.Clean, FileMap, Contiguous, Ending, AllValid;
      ghost var views := Views(segments);
      StartsEnding(views);
      kept := [];
      var i := 0;
      while i < |segments|
        invariant 0 <= i <= |segments| && Ending(views, if i < k then i else k)
        invariant kept == if i <= k then [] else segments[k..i]
      {
        var s := segments[i];
        EndingAt(views, if i < k then i else k, i);
        if s.nextOffset <= (lowest + 1) % TWO_64 {
          RemoveSegment(i, views);
        } else {
          kept := kept + [s];
        }
        i := i + 1;
      }
      assert segments[k..i] == segments[k..];
      SuffixParts(views, k);
    }

    lemma {:induction false} StartsEnding(views: seq<SegmentState>)
      requires Structured() && Views(segments) == views
      ensures Ending(views, 0)
    {
      hide Segment.Valid, Segment.Clean, FileMap, Disjoint;
      assert segments[0..] == segments;
    }

    lemma {:induction false} SuffixFiles(views: seq<SegmentState>, i: nat)
      requires i < |segments| == |views| && Contiguous(views)
      requires forall j :: 0 <= j < |segments| ==> segments[j].baseOffset == views[j].base
      ensures FileMap(segments[i..]) - {segments[i].baseOffset} == FileMap(segments[i + 1..])
    {
      hide FileMap;
      var vs := views[i..];
      forall a, b | 0 <= a < b < |vs| && b == a + 1
        ensures Follows(vs[a], vs[b])
      {
        assert Follows(views[i + a], views[i + b]);
      }
      RemoveFirst(segments[i..], vs);
      assert segments[i..][1..] == segments[i + 1..];
    }

    lemma {:induction false} SuffixParts(views: seq<SegmentState>, k: nat)
      requires Ending(views, k) && Disjoint(segments)
      ensures AllValid(segments[k..], Repr, limits) && Disjoint(segments[k..])
      ensures dir.present && dir.files == FileMap(segments[k..]) && Views(segments[k..]) == views[k..]
    {
      hide FileMap, Segment.Valid, Segment.Clean, Segment.Within, Segment.Apart;
      assert forall i :: 0 <= i < |segments| - k ==> segments[k..][i] == segments[k + i];
    }

    /** Closes and removes every segment that ends at or below `lowest + 1`, which wraps.  That
        leaves a valid log unless it takes the active one, too: then no segment and
        no file remains. */
    method Truncate(lowest: uint64)
      requires Valid()
      modifies this, dir, Repr
      ensures State() == LogSpec.Truncate(old(State()), lowest) && Repr == old(Repr)
      ensures if After(lowest) < old(Next(State())) then Valid()
              else segments == [] && dir.present && dir.files == map[]
    {
      hide Views, AllValid, Disjoint, Segment.Valid, Segment.Clean, Segment.Within, FileMap, Good, Contiguous, Keep;
      GoodParts(State());
      ghost var k := KeptFrom(State(), lowest);
      segments := RemoveEnded(lowest, k);
      if segments == [] {
        NoSegments();
      }
    }

    lemma {:induction false} NoSegments()
      ensures FileMap([]) == map[]
    {
    }

    lemma {:induction false} ClosedHolds(vs: seq<SegmentState>)
      requires Named() && GoodLimits(limits) && Disjoint(segments) && Contiguous(vs) && Closing(vs, |segments|)
      ensures Holds(dir, vs, limits)
    {
      hide FileMap, ClosedImage, Contiguous, Segment.Within;
      forall j | 0 <= j < |segments|
        ensures vs[j].base in dir.files && dir.files[vs[j].base] == segments[j].Files()
      {
        FileMapAt(segments, vs, j);
      }
      forall b | b in dir.files
        ensures b in Bases(vs)
      {
        var j := FileMapFind(segments, b);
        assert Bases(vs)[j] == b;
      }
      forall a, b | a in dir.files && b in dir.files && a != b
        ensures dir.files[a].store != dir.files[b].store && dir.files[a].index != dir.files[b].index
        ensures dir.files[a].index.pages != dir.files[b].index.pages
      {
        var j := FileMapFind(segments, a);
        var k := FileMapFind(segments, b);
        assert if j < k then segments[j].Apart(segments[k]) else segments[k].Apart(segments[j]);
      }
    }

    /** Half way through Close: the first `n` segments are closed, each with index
        pages of its own, the others as they were. */
    ghost predicate Closing(vs: seq<SegmentState>, n: nat)
      reads this, Repr, segments, set s | s in segments :: s.store.file
      reads set s | s in segments :: s.index.file, set s | s in segments :: s.index.file.pages
    {
      && n <= |segments| == |vs|
      && (forall j :: 0 <= j < |segments| ==>
            segments[j].Within(Repr) && segments[j].limits == limits && segments[j].View() == vs[j])
      && (forall j :: n <= j < |segments| ==> segments[j].Valid() && segments[j].Clean())
      && Imaged(vs, n) && OwnPages(n)
    }

    ghost predicate Imaged(vs: seq<SegmentState>, n: nat)
      reads this, set s | s in segments :: s.store.file
      reads set s | s in segments :: s.index.file, set s | s in segments :: s.index.file.pages
    {
      && n <= |segments| == |vs|
      && forall j :: 0 <= j < n ==>
           ClosedImage(segments[j].store.file.data, segments[j].index.file.pages[..], vs[j], limits)
    }

    ghost predicate OwnPages(n: nat)
      reads this, set s | s in segments :: s.index.file
    {
      && n <= |segments|
      && (forall j, k :: 0 <= j < n && 0 <= k < |segments| && j != k ==>
            segments[j].index.file.pages != segments[k].index.mmap)
      && (forall j, k :: 0 <= j < k < n ==> segments[j].index.file.pages != segments[k].index.file.pages)
    }

    lemma {:induction false} ClosingAt(vs: seq<SegmentState>, i: nat)
      requires Closing(vs, i) && i < |segments|
      ensures segments[i].Within(Repr) && segments[i].Valid() && segments[i].Clean()
    {
    }

    /** The step of Close for segment `i`. */
    method CloseSegment(i: nat, ghost vs: seq<SegmentState>)
      requires Closing(vs, i) && i < |segments| && segments[i].Within(Repr)
      requires this !in Repr && Disjoint(segments)
      modifies segments[i].store, segments[i].store.file, segments[i].index.file
      ensures Closing(vs, i + 1)
    {
      hide Segment.Valid, Segment.Clean, ClosedImage;
      segments[i].Close();
      forall j | 0 <= j < |segments| && j != i
        ensures segments[j].index.mmap != segments[i].index.mmap
        ensures j > i ==> segments[j].Valid() && segments[j].Clean()
      {
        assert segments[j].Apart(segments[i]) || segments[i].Apart(segments[j]);
      }
    }

    /** Closing leaves the printed records and the index entries on disk. */
    method Close()
      requires Valid()
      modifies Repr
      ensures Holds(dir, old(Views(segments)), limits)
    {
      hide Views, Holds, Segment.Valid, Segment.Clean, Closing, ClosedImage, FileMap, Good, Contiguous;
      ghost var vs := Views(segments);
      StartsClosing(vs);
      var i := 0;
      while i < |segments|
        invariant 0 <= i <= |segments| && Closing(vs, i)
      {
        ClosingAt(vs, i);
        CloseSegment(i, vs);
        i := i + 1;
      }
      GoodParts(LogState(limits, initialOffset, vs));
      ClosedHolds(vs);
    }

    lemma {:induction false} StartsClosing(vs: seq<SegmentState>)
      requires Structured() && Views(segments) == vs
      ensures Closing(vs, 0)
    {
      hide Segment.Valid, Segment.Clean, FileMap, Disjoint;
    }

    /** Half way through setup: the first |segments| of `vs` are open, the files of the rest closed. */
    ghost predicate Opening(vs: seq<SegmentState>)
      reads this, dir, Repr, Stores(dir.files), Indexes(dir.files), AllPages(dir.files)
    {
      && |segments| <= |vs| && this !in Repr && dir !in Repr && dir.present && GoodLimits(limits) && Contiguous(vs)
      && (segments != [] ==> activeSegment == Last(segments))
      && AllValid(segments, Repr, limits) && Disjoint(segments)
      && dir.files.Keys == BaseSet(vs) && FilesApart(dir.files)
      && Matched(segments, vs, dir.files)
      && ClosedFrom(dir.files, vs, |segments|, limits)
    }

    /** Opening the files at `base` leaves the segments already open as they were. */
    twostate lemma {:induction false} OpenedKept(new vs: seq<SegmentState>, new s: Segment)
      requires old(Opening(vs)) && |old(segments)| < |vs|
      requires vs[|old(segments)|].base in old(dir.files)
      requires forall o :: o in old(Repr) && o != old(dir.files[vs[|segments|].base].index) ==> unchanged(o)
      requires s.Files() == old(dir.files[vs[|segments|].base])
      requires fresh(s) && fresh(s.store) && fresh(s.index)
      requires fresh(s.index.mmap) || s.index.mmap == old(dir.files[vs[|segments|].base].index.pages)
      ensures forall j :: 0 <= j < |old(segments)| ==> old(segments)[j].Valid() && old(segments)[j].Clean()
      ensures forall j :: 0 <= j < |old(segments)| ==> old(segments)[j].Apart(s)
      ensures forall j :: 0 <= j < |old(segments)| ==>
              old(segments)[j].Within(old(Repr)) && old(segments)[j].limits == old(limits)
      ensures Matched(old(segments), vs, old(dir.files))
    {
      hide Segment.Valid, Segment.Clean, ClosedFrom, Contiguous;
      ghost var n := |old(segments)|;
      forall j | 0 <= j < n
        ensures old(segments)[j].Valid() && old(segments)[j].Clean() && old(segments)[j].View() == vs[j]
        ensures old(segments)[j].Apart(s)
      {
        Ordered(vs, j, n);
        assert old(segments)[j].index.file != old(dir.files[vs[n].base].index);
        assert old(segments)[j].index.mmap == old(segments[j].index.file.pages);
      }
    }

    /** Opening the files at `base` leaves the files of the other bases as they were. */
    twostate lemma {:induction false} OthersClosed(new vs: seq<SegmentState>, new base: nat)
      requires old(Opening(vs)) && |old(segments)| < |vs| && vs[|old(segments)|].base == base && base in dir.files
      requires dir.files == old(dir.files) && limits == old(limits)
      requires forall b :: b in dir.files && dir.files[b].index != dir.files[base].index ==>
               unchanged(dir.files[b].index)
      requires forall b :: b in dir.files ==> unchanged(dir.files[b].store) && unchanged(old(dir.files[b].index.pages))
      requires dir.files[base].index.pages == old(dir.files[base].index.pages) || fresh(dir.files[base].index.pages)
      ensures FilesApart(dir.files) && ClosedFrom(dir.files, vs, |old(segments)| + 1, limits)
    {
      hide ClosedImage, Contiguous, AllValid, Disjoint, Matched;
      forall j | |old(segments)| < j < |vs|
        ensures base != vs[j].base
      {
        Ordered(vs, |old(segments)|, j);
      }
      forall j | |old(segments)| < j < |vs|
        ensures ClosedImage(dir.files[vs[j].base].store.data, dir.files[vs[j].base].index.pages[..], vs[j], limits)
      {
        var b := vs[j].base;
        assert unchanged(dir.files[b].index) && unchanged(old(dir.files[b].index.pages));
        assert dir.files[b].index.pages[..] == old(dir.files[b].index.pages[..]);
      }
    }

    method OpenOne(ghost vs: seq<SegmentState>, base: uint64)
      requires Opening(vs) && |segments| < |vs| && base == vs[|segments|].base
      requires base in dir.files
      modifies this`segments, this`activeSegment, this`Repr, dir`files, dir.files[base].index
      ensures Opening(vs) && |segments| == |old(segments)| + 1 && dir.files == old(dir.files)
      ensures fresh(Repr - old(Repr) - old(dir.Objects(base)))
      ensures forall b :: b in dir.files && dir.files[b].index != dir.files[base].index ==>
              unchanged(dir.files[b].index)
    {
      hide Segment.Valid, Segment.Clean, Segment.Repr, Segment.Within, Segment.Apart, Entries, NextAfter, Resized;
      hide ClosedImage;
      hide AllValid, Disjoint, FilesApart, ClosedFrom, Contiguous, Matched, BaseSet;
      ghost var n := |segments|;
      ClosedNext(dir.files, vs, n, limits);
      var s := NewSegment(base, vs[n].records);
      assert dir.files == old(dir.files);
      OpenedKept(vs, s);
      OthersClosed(vs, base);
      DisjointAppend(old(segments), s);
      AllValidAppend(old(segments), s, old(Repr), Repr, limits);
      MatchedAppend(old(segments), s, vs, dir.files);
    }

    /** os.ReadDir and the sort: one base per segment, or per file as written. */
    method ListBases(perFile: bool) returns (bases: seq<nat>)
      ensures Sorted(bases)
      ensures multiset(bases) == if perFile then multiset(dir.files.Keys) + multiset(dir.files.Keys)
              else multiset(dir.files.Keys)
    {
      bases := [];
      var rest := dir.files.Keys;
      while rest != {}
        invariant rest <= dir.files.Keys && Sorted(bases)
        invariant var done := multiset(dir.files.Keys - rest); multiset(bases) == if perFile then done + done else done
        decreases rest
      {
        var b :| b in rest;
        rest := rest - {b};
        InsertAdds(bases, b);
        InsertSorted(bases, b);
        bases := Insert(bases, b);
        if perFile {
          InsertAdds(bases, b);
          InsertSorted(bases, b);
          bases := Insert(bases, b);
        }
      }
    }

    lemma {:induction false} AllOpened(vs: seq<SegmentState>)
      requires Opening(vs) && |segments| == |vs| > 0
      ensures Valid() && Views(segments) == vs
    {
      hide Segment.Valid, Segment.Clean, FileMap, Contiguous, Segment.Within, Segment.Apart, Disjoint, FilesApart;
      hide ClosedFrom, BaseSet;
      assert Views(segments) == vs;
      AllNamed(vs);
      forall j | 0 <= j < |vs|
        ensures GoodSegment(vs[j], limits)
      {
        segments[j].ViewGood();
      }
    }

    /** With all segments open, the directory names their files and no others. */
    lemma {:induction false} AllNamed(vs: seq<SegmentState>)
      requires Opening(vs) && |segments| == |vs|
      ensures Named()
    {
      hide AllValid, FileMap, Contiguous, Disjoint, FilesApart, ClosedFrom;
      forall b | b in dir.files
        ensures b in FileMap(segments) && dir.files[b] == FileMap(segments)[b]
      {
        var j :| 0 <= j < |vs| && Bases(vs)[j] == b;
        FileMapAt(segments, vs, j);
      }
      forall b | b in FileMap(segments)
        ensures b in dir.files
      {
        var j := FileMapFind(segments, b);
      }
      assert dir.files == FileMap(segments);
    }

    lemma {:induction false} ListingOf(vs: seq<SegmentState>, bases: seq<nat>, perFile: bool)
      requires Holds(dir, vs, limits) && Sorted(bases)
      requires multiset(bases) == if perFile then multiset(dir.files.Keys) + multiset(dir.files.Keys)
               else multiset(dir.files.Keys)
      ensures bases == if perFile then Doubled(Bases(vs)) else Bases(vs)
    {
      hide ClosedFrom, FilesApart, Contiguous;
      forall j, k | 0 <= j < k < |vs|
        ensures vs[j].base < vs[k].base
      {
        Ordered(vs, j, k);
      }
      ListingIs(bases, Bases(vs), dir.files.Keys, perFile);
    }

    method ListHeld(ghost vs: seq<SegmentState>, perFile: bool) returns (bases: seq<nat>)
      requires Holds(dir, vs, limits)
      ensures Holds(dir, vs, limits) && bases == if perFile then Doubled(Bases(vs)) else Bases(vs)
      ensures Stores(dir.files) == old(Stores(dir.files)) && Indexes(dir.files) == old(Indexes(dir.files))
      ensures AllPages(dir.files) == old(AllPages(dir.files))
    {
      hide Holds;
      bases := ListBases(perFile);
      assert Stores(dir.files) == old(Stores(dir.files)) && Indexes(dir.files) == old(Indexes(dir.files));
      assert AllPages(dir.files) == old(AllPages(dir.files));
      ListingOf(vs, bases, perFile);
    }

    /** The loop of setup over the sorted bases. */
    method OpenListed(ghost vs: seq<SegmentState>, bases: seq<nat>)
      requires Opening(vs) && segments == [] && Repr == {} && bases == Bases(vs)
      modifies this, dir`files, Indexes(dir.files)
      ensures Opening(vs) && |segments| == |vs| && dir.files == old(dir.files) && (segments == [] ==> Repr == {})
      ensures unchanged(`limits) && unchanged(`initialOffset)
      ensures fresh(Repr - old(Stores(dir.files)) - old(Indexes(dir.files)) - old(AllPages(dir.files)))
    {
      hide FilesApart, ClosedFrom, Contiguous, Opening, BaseSet, Segment.Valid, Segment.Clean, Stores, Indexes;
      hide AllPages;
      ghost var owned := Stores(dir.files) + Indexes(dir.files) + AllPages(dir.files);
      AllOwned(vs);
      var i := 0;
      while i < |bases|
        invariant 0 <= i <= |bases| && |segments| == i && Opening(vs) && dir.files == old(dir.files)
        invariant unchanged(`limits) && unchanged(`initialOffset)
        invariant segments == [] ==> Repr == {}
        invariant fresh(Repr - owned)
        invariant forall j :: i <= j < |vs| ==> unchanged(dir.files[vs[j].base].index)
      {
        NextBase(vs);
        ghost var mid, at := Repr, dir.Objects(bases[i]);
        assert at == old(dir.Objects(bases[i])) <= owned;
        OpenOne(vs, bases[i]);
        assert Repr - owned <= (mid - owned) + (Repr - mid - at);
        i := i + 1;
      }
      assert Repr - owned == Repr - old(Stores(dir.files)) - old(Indexes(dir.files)) - old(AllPages(dir.files));
    }

    lemma {:induction false} AllOwned(vs: seq<SegmentState>)
      requires Opening(vs) && segments == []
      ensures forall j :: 0 <= j < |vs| ==>
                && vs[j].base in dir.files && dir.files[vs[j].base].index in Indexes(dir.files)
                && dir.Objects(vs[j].base) <= Stores(dir.files) + Indexes(dir.files) + AllPages(dir.files)
    {
      hide ClosedImage, Contiguous, FilesApart, AllValid, Disjoint, Matched;
    }

    /** Reopening the directory that a clean Close left: with each base opened once,
        setup rebuilds the same segments; as written, it opens every base twice
        (`perFile`).  An empty directory gets its first segment. */
    method Setup(perFile: bool, ghost vs: seq<SegmentState>) returns (r: Result<()>)
      requires dir.present ==> segments == [] && Repr == {} && Holds(dir, vs, limits)
      modifies this, dir`files, Indexes(dir.files)
      ensures unchanged(`limits) && unchanged(`initialOffset)
      ensures !old(dir.present) ==> r == Err(DirectoryMissing) && unchanged(this) && unchanged(dir)
      ensures old(dir.present) && (!perFile || vs == []) ==>
                && r == Ok(()) && Valid()
                && State() ==
                  LogState(limits, initialOffset, if vs == [] then [SegmentState(initialOffset, [])] else vs)
      ensures old(dir.present) && !perFile ==>
                fresh(Repr - old(Stores(dir.files)) - old(Indexes(dir.files)) - old(AllPages(dir.files)))
      ensures old(dir.present) && perFile && vs != [] ==>
                r == Ok(()) && Reopened(vs) && |segments| == 2 * |vs| && dir.files == old(dir.files)
    {
      hide Reopened, Holds, Structured, Good, Stores, Indexes, AllPages;
      if !dir.present {
        return Err(DirectoryMissing);
      }
      if perFile {
        SetupPerFile(vs);
      } else {
        Populate(vs);
      }
      r := Ok(());
    }

    method Populate(ghost vs: seq<SegmentState>)
      requires segments == [] && Repr == {} && Holds(dir, vs, limits)
      modifies this, dir`files, Indexes(dir.files)
      ensures unchanged(`limits) && unchanged(`initialOffset) && Valid()
      ensures State() == LogState(limits, initialOffset, if vs == [] then [SegmentState(initialOffset, [])] else vs)
      ensures fresh(Repr - old(Stores(dir.files)) - old(Indexes(dir.files)) - old(AllPages(dir.files)))
    {
      hide Holds, FilesApart, ClosedFrom, Contiguous, Opening, Structured, BaseSet, Segment.Valid, Segment.Clean;
      hide FileMap, Stores, Indexes, AllPages;
      var bases := ListHeld(vs, false);
      HeldOpening(vs);
      OpenListed(vs, bases);
      if segments == [] {
        CreateFirst(vs);
      } else {
        AllOpened(vs);
      }
    }

    method CreateFirst(ghost vs: seq<SegmentState>)
      requires Opening(vs) && vs == [] && Repr == {}
      modifies this`segments, this`activeSegment, this`Repr, dir`files
      ensures Valid() && fresh(Repr) && Views(segments) == [SegmentState(initialOffset, [])]
    {
      hide Holds, Opening, Structured, Segment.Valid, Segment.Clean, FileMap, FilesApart, ClosedFrom;
      NothingOpened(vs);
      AddSegment(initialOffset);
      FirstGood();
    }

    lemma {:induction false} NextBase(vs: seq<SegmentState>)
      requires Opening(vs) && |segments| < |vs|
      ensures vs[|segments|].base < TWO_64 && vs[|segments|].base in dir.files
      ensures forall j :: |segments| < j < |vs| ==>
                && vs[j].base in dir.files
                && dir.files[vs[j].base].index != dir.files[vs[|segments|].base].index
    {
      hide Segment.Valid, Segment.Clean, AllValid, Disjoint, Matched, Contiguous;
      ClosedNext(dir.files, vs, |segments|, limits);
      forall j | |segments| < j < |vs|
        ensures vs[j].base in dir.files && dir.files[vs[j].base].index != dir.files[vs[|segments|].base].index
      {
        Ordered(vs, |segments|, j);
      }
    }

    lemma {:induction false} NothingOpened(vs: seq<SegmentState>)
      requires Opening(vs) && vs == [] && Repr == {}
      ensures segments == [] && GoodLimits(limits) && this !in Repr && dir !in Repr
      ensures dir.files == map[] && Named() && AllValid(segments, Repr, limits) && Disjoint(segments)
    {
    }

    lemma {:induction false} FirstGood()
      requires Structured() && GoodLimits(limits) && Views(segments) == [SegmentState(initialOffset, [])]
      ensures Valid()
    {
    }

    lemma {:induction false} HeldOpening(vs: seq<SegmentState>)
      requires Holds(dir, vs, limits) && segments == [] && Repr == {}
      ensures Opening(vs) && GoodLimits(limits) && dir.present
    {
    }

    /** Half way through setup as written, which opens every base twice. */
    ghost predicate OpeningTwice(vs: seq<SegmentState>, files: map<nat, Pair>, pages: seq<bytes>)
      reads this, dir, Indexes(files), AllPages(files), segments
    {
      var i := |segments|;
      && i <= 2 * |vs| && dir.files == files && ClosedPages(vs, files, pages, limits)
      && (forall j :: 0 <= j < |vs| ==>
            files[vs[j].base].index.pages[..] == if 2 * j < i then Resized(pages[j], limits.maxIndex) else pages[j])
      && (i > 0 ==> var j := (i - 1) / 2;
                    Last(segments).nextOffset ==
                    NextAfter(vs[j].base, Entries(if i % 2 == 1 then pages[j] else Resized(pages[j], limits.maxIndex))))
    }

    /** A handle of a log reopened as written.  The first one on a base is the segment
        it was closed from; the second has a full index, and ends one past its base
        unless the first one's index is full as well. */
    ghost predicate Handle(s: Segment, v: SegmentState, first: bool)
      reads this, s, s.store, s.store.file, s.index, s.index.file, s.index.mmap
    {
      && s.Within(Repr) && s.limits == limits && s.View() == v && s.Opened()
      && s.store.Contents() == Print(v.records) && s.store.buf == []
      && if first then s.Valid() && s.Clean()
        else s.index.size == limits.maxIndex && s.nextOffset == NextOpenedTwice(v, limits)
    }

    ghost predicate Handles(vs: seq<SegmentState>, n: nat)
      reads this, Repr
    {
      && this !in Repr && dir !in Repr && n <= |segments| && n <= 2 * |vs|
      && forall i :: 0 <= i < n ==> segments[i].Within(Repr) && Handle(segments[i], vs[i / 2], i % 2 == 0)
    }

    /** Setup as written opens these images again and again. */
    ghost predicate Imaging(vs: seq<SegmentState>, files: map<nat, Pair>, pages: seq<bytes>)
      reads this, Stores(files)
    {
      && |pages| == |vs| && |segments| <= 2 * |vs|
      && (forall j :: 0 <= j < |vs| ==>
            vs[j].base in files && ClosedImage(files[vs[j].base].store.data, pages[j], vs[j], limits))
      && forall i :: 0 <= i < |segments| ==> segments[i].Files() == files[vs[i / 2].base]
    }

    method OpenOneAgain(ghost vs: seq<SegmentState>, base: uint64, ghost files: map<nat, Pair>, ghost pages: seq<bytes>)
      requires OpeningTwice(vs, files, pages) && |segments| < 2 * |vs| && base == vs[|segments| / 2].base
      requires Imaging(vs, files, pages) && Handles(vs, |segments|) && base in dir.files
      modifies this`segments, this`activeSegment, this`Repr, dir`files, dir.files[base].index
      ensures OpeningTwice(vs, files, pages) && |segments| == |old(segments)| + 1 && activeSegment == Last(segments)
      ensures Imaging(vs, files, pages) && Handles(vs, |segments|)
      ensures unchanged(`limits) && dir.files == files
    {
      hide Entries, NextAfter, Resized, ClosedImage, EntriesFor, Openable, ClosedPages, OpeningTwice;
      hide Imaging, Handles, NextOpenedTwice, Print, Stores;
      ghost var i := |segments|;
      NextPages(vs, files, pages);
      NextImage(vs, files, pages);
      NotOwn(vs);
      var s := NewSegment(base, vs[i / 2].records);
      assert dir.files == files;
      OpenedAgain(vs, files, pages);
      HandlesKept(vs, files, i / 2);
      ImagingKept(vs, files, pages, s);
      HandlesMore(vs, s);
    }

    /** What is found at the base to be opened next. */
    lemma {:induction false} NextImage(vs: seq<SegmentState>, files: map<nat, Pair>, pages: seq<bytes>)
      requires OpeningTwice(vs, files, pages) && Imaging(vs, files, pages) && |segments| < 2 * |vs|
      ensures var j := |segments| / 2;
              var b, data, p := vs[j].base, files[vs[j].base].store.data, files[vs[j].base].index.pages[..];
              && data == Print(vs[j].records) && SegmentState(b, vs[j].records) == vs[j] && b < TWO_64
              && (if |segments| % 2 == 0 then ClosedImage(data, p, vs[j], limits)
                  else |p| == limits.maxIndex && NextAfter(b, Entries(p)) == NextOpenedTwice(vs[j], limits))
              && (|segments| % 2 == 0 ==>
                    forall k :: 0 <= k < |segments| ==> segments[k].index.file != files[b].index)
    {
      hide Entries, EntriesFor, NextAfter, Resized, NextOpenedTwice, Openable;
      var j := |segments| / 2;
      if |segments| % 2 == 1 {
        NextOnSecondOpening(files[vs[j].base].store.data, pages[j], vs[j], limits);
      }
      forall k | 0 <= k < |segments| && |segments| % 2 == 0
        ensures segments[k].index.file != files[vs[j].base].index
      {
        assert segments[k].Files() == files[vs[k / 2].base] && k / 2 < j;
      }
    }

    lemma {:induction false} NoHandles(vs: seq<SegmentState>)
      requires Repr == {}
      ensures Handles(vs, 0)
    {
    }

    lemma {:induction false} NotOwn(vs: seq<SegmentState>)
      requires Handles(vs, |segments|)
      ensures this !in Repr && dir !in Repr
    {
    }

    /** Opening base `j` disturbs no handle that is open. */
    twostate lemma {:induction false} HandlesKept(new vs: seq<SegmentState>, new files: map<nat, Pair>, new j: nat)
      requires old(Handles(vs, |segments|)) && old(Repr) <= Repr && limits == old(limits)
      requires |segments| == |old(segments)| + 1 && segments[..|old(segments)|] == old(segments)
      requires this !in Repr && dir !in Repr
      requires old(allocated(segments)) && old(allocated(files)) && j < |vs| && vs[j].base in files
      requires forall o :: o in old(Repr) && o != files[vs[j].base].index ==> unchanged(o)
      requires files[vs[j].base].index.pages == old(files[vs[j].base].index.pages)
               || forall k :: 0 <= k < |old(segments)| ==> old(segments)[k].index.file != files[vs[j].base].index
      ensures Handles(vs, |old(segments)|)
    {
      hide Segment.Valid, Segment.Clean, Segment.Opened, Print, NextOpenedTwice;
      forall k | 0 <= k < |old(segments)|
        ensures segments[k].Within(Repr) && Handle(segments[k], vs[k / 2], k % 2 == 0)
      {
        assert segments[k] == old(segments)[k];
        assert old(Handle(segments[k], vs[k / 2], k % 2 == 0));
        segments[k].Undisturbed();
      }
    }

    twostate lemma {:induction false} ImagingKept(
        new vs: seq<SegmentState>, new files: map<nat, Pair>, new pages: seq<bytes>, new s: Segment)
      requires old(allocated(files)) && old(Imaging(vs, files, pages)) && limits == old(limits)
      requires segments == old(segments) + [s] && |segments| <= 2 * |vs|
               && s.Files() == files[vs[|old(segments)| / 2].base]
      requires forall b :: b in files ==> unchanged(files[b].store)
      ensures Imaging(vs, files, pages)
    {
      hide ClosedImage;
      forall j | 0 <= j < |vs|
        ensures vs[j].base in files && ClosedImage(files[vs[j].base].store.data, pages[j], vs[j], limits)
      {
        assert unchanged(files[vs[j].base].store);
      }
    }

    lemma {:induction false} HandlesMore(vs: seq<SegmentState>, s: Segment)
      requires segments != [] && Handles(vs, |segments| - 1) && Last(segments) == s && |segments| <= 2 * |vs|
      requires s.Within(Repr) && Handle(s, vs[(|segments| - 1) / 2], (|segments| - 1) % 2 == 0)
      ensures Handles(vs, |segments|)
    {
      hide Handle;
    }

    lemma {:induction false} NextPages(vs: seq<SegmentState>, files: map<nat, Pair>, pages: seq<bytes>)
      requires OpeningTwice(vs, files, pages) && |segments| < 2 * |vs|
      ensures var j := |segments| / 2;
              && dir.files == files && vs[j].base in files && Openable(files[vs[j].base].index.pages[..], limits)
              && forall k :: 0 <= k < |vs| && k != j ==>
                   vs[k].base in files && files[vs[k].base].index != files[vs[j].base].index
    {
      hide Openable, Resized, ClosedPages, Entries, NextAfter;
      ClosedPagesAt(vs, files, pages, limits, |segments| / 2);
      ResizedOpenable(pages[|segments| / 2], limits);
    }

    twostate lemma {:induction false} OpenedAgain(
        new vs: seq<SegmentState>, new files: map<nat, Pair>, new pages: seq<bytes>)
      requires old(allocated(files)) && old(OpeningTwice(vs, files, pages))
               && |segments| == |old(segments)| + 1 <= 2 * |vs|
      requires limits == old(limits) && dir.files == files
      requires var j := |old(segments)| / 2;
               && vs[j].base in files
               && files[vs[j].base].index.pages[..] == Resized(old(files[vs[j].base].index.pages[..]), limits.maxIndex)
               && Last(segments).nextOffset == NextAfter(vs[j].base, Entries(old(files[vs[j].base].index.pages[..])))
               && forall k :: 0 <= k < |vs| && k != j ==>
                    && vs[k].base in files && unchanged(files[vs[k].base].index)
                    && unchanged(old(files[vs[k].base].index.pages))
      ensures OpeningTwice(vs, files, pages)
    {
      hide Entries, NextAfter, ClosedPages;
    }

    /** Setup as written, on the directory of a cleanly closed log.  The last
        segment is taken to end one past its base, unless its index is full; so the
        highest offset is the one the log was closed with exactly when that segment
        holds a single record or a full index, or is empty at base 0. */
    method SetupPerFile(ghost vs: seq<SegmentState>)
      requires segments == [] && Repr == {} && Holds(dir, vs, limits)
      modifies this, dir`files, Indexes(dir.files)
      ensures unchanged(`limits) && unchanged(`initialOffset)
      ensures vs == [] ==> Valid() && State() == LogState(limits, initialOffset, [SegmentState(initialOffset, [])])
      ensures vs != [] ==>
                && |segments| == 2 * |vs| && Reopened(vs) && dir.files == old(dir.files)
                && Last(segments).nextOffset == NextOpenedTwice(Last(vs), limits)
                && (HighestBelow(Last(segments).nextOffset) == HighestBelow(Last(vs).Next()) <==>
                      var n := |Last(vs).records|;
                      n == 1 || n == limits.maxIndex / ENTRY_WIDTH || (n == 0 && Last(vs).base == 0))
    {
      hide Holds, Entries, NextAfter, Resized, OpeningTwice, Opening, Structured, Good;
      hide Handles, Imaging, Reopened, NextOpenedTwice, Contiguous, BaseSet, Stores, Indexes, AllPages;
      HeldOpening(vs);
      var bases := ListHeld(vs, true);
      if |bases| == 0 {
        HeldOpening(vs);
        CreateFirst(vs);
      } else {
        ghost var pages, files := HeldTwice(vs);
        NoHandles(vs);
        OpenListedTwice(vs, bases, files, pages);
        LastTwice(vs, files, pages);
        SameHighest(Last(vs), limits);
        AllReopened(vs);
      }
    }

    /** The loop of setup over the bases as listed. */
    method OpenListedTwice(
        ghost vs: seq<SegmentState>, bases: seq<nat>, ghost files: map<nat, Pair>, ghost pages: seq<bytes>)
      requires OpeningTwice(vs, files, pages) && Imaging(vs, files, pages) && Handles(vs, 0)
      requires segments == [] && bases == Doubled(Bases(vs)) && dir.files == files
      modifies this, dir`files, Indexes(dir.files)
      ensures OpeningTwice(vs, files, pages) && Handles(vs, 2 * |vs|) && |segments| == 2 * |vs|
      ensures dir.files == files && unchanged(`limits) && unchanged(`initialOffset) && unchanged(dir`present)
      ensures segments != [] ==> activeSegment == Last(segments)
    {
      hide OpeningTwice, Imaging, Handles;
      var i := 0;
      while i < |bases|
        invariant 0 <= i <= |bases| && |segments| == i && OpeningTwice(vs, files, pages)
        invariant Imaging(vs, files, pages) && Handles(vs, i)
        invariant dir.files == files && unchanged(`limits) && unchanged(`initialOffset)
        invariant i > 0 ==> activeSegment == Last(segments)
      {
        DoubledAt(Bases(vs), i / 2);
        NextTwice(vs, files, pages);
        assert bases[i] == vs[i / 2].base;
        OpenOneAgain(vs, bases[i], files, pages);
        i := i + 1;
      }
    }

    lemma {:induction false} AllReopened(vs: seq<SegmentState>)
      requires vs != [] && dir.present && GoodLimits(limits) && Contiguous(vs) && dir.files.Keys == BaseSet(vs)
      requires |segments| == 2 * |vs| && activeSegment == Last(segments) && Handles(vs, 2 * |vs|)
      ensures Reopened(vs)
    {
      hide Handle;
    }

    /** The log as the code's own setup leaves it on the directory of a log with the
        segments `vs`, every base opened twice; segments on files of their own may
        have been added since. */
    ghost predicate Reopened(vs: seq<SegmentState>)
      reads this, dir, Repr
    {
      && vs != [] && dir.present && GoodLimits(limits) && Contiguous(vs)
      && 2 * |vs| <= |segments| && activeSegment == Last(segments) && Handles(vs, 2 * |vs|)
      && (|segments| == 2 * |vs| ==> dir.files.Keys == BaseSet(vs))
      && forall i :: 2 * |vs| <= i < |segments| ==>
           segments[i].Within(Repr) && segments[i].Opened() && forall j :: 0 <= j < i ==> segments[j].Apart(segments[i])
    }

    /** Nothing that is open changes: the handles stay as they are. */
    twostate lemma {:induction false} HandlesUndisturbed(new vs: seq<SegmentState>, new n: nat)
      requires old(Handles(vs, n)) && old(Repr) <= Repr && limits == old(limits) && this !in Repr && dir !in Repr
      requires n <= |segments| && segments[..n] == old(segments[..n]) && old(allocated(segments[..n]))
      requires forall i :: 0 <= i < n ==> segments[i].Same()
      ensures Handles(vs, n)
    {
      hide Segment.Valid, Segment.Clean, Segment.Opened, Print, NextOpenedTwice;
      forall k | 0 <= k < n
        ensures segments[k].Within(Repr) && Handle(segments[k], vs[k / 2], k % 2 == 0)
      {
        assert segments[k] == segments[..n][k] == old(segments)[k];
        assert old(Handle(segments[k], vs[k / 2], k % 2 == 0));
        segments[k].Undisturbed();
      }
    }

    lemma {:induction false} SameHighest(s: SegmentState, l: Limits)
      requires GoodLimits(l) && s.Next() < TWO_64
      ensures HighestBelow(NextOpenedTwice(s, l)) == HighestBelow(s.Next()) <==>
              |s.records| == 1 || |s.records| == l.maxIndex / ENTRY_WIDTH || (s.records == [] && s.base == 0)
    {
    }

    lemma {:induction false} HeldTwice(vs: seq<SegmentState>) returns (pages: seq<bytes>, files: map<nat, Pair>)
      requires Holds(dir, vs, limits) && segments == []
      ensures files == dir.files && OpeningTwice(vs, files, pages) && GoodLimits(limits)
      ensures Imaging(vs, files, pages) && Contiguous(vs) && dir.present && dir.files.Keys == BaseSet(vs)
      ensures vs != [] ==>
                && Last(vs).Next() < TWO_64
                && NextAfter(Last(vs).base, Entries(Resized(Last(pages), limits.maxIndex))) ==
                  NextOpenedTwice(Last(vs), limits)
    {
      hide Contiguous, Entries, EntriesFor, Resized, NextAfter, ClosedImage, Openable, Bases, NextOpenedTwice;
      files := dir.files;
      pages := PagesOf(files, vs);
      forall j | 0 <= j < |vs|
        ensures Openable(pages[j], limits) && vs[j].Next() < TWO_64
      {
        ImageOpenable(files[vs[j].base].store.data, pages[j], vs[j], limits);
      }
      forall j, k | 0 <= j < k < |vs|
        ensures vs[j].base < vs[k].base
      {
        Ordered(vs, j, k);
      }
      if vs != [] {
        NextOnSecondOpening(files[Last(vs).base].store.data, Last(pages), Last(vs), limits);
      }
    }

    lemma {:induction false} NextTwice(vs: seq<SegmentState>, files: map<nat, Pair>, pages: seq<bytes>)
      requires OpeningTwice(vs, files, pages) && |segments| < 2 * |vs|
      ensures vs[|segments| / 2].base < TWO_64 && vs[|segments| / 2].base in files
    {
    }

    lemma {:induction false} LastTwice(vs: seq<SegmentState>, files: map<nat, Pair>, pages: seq<bytes>)
      requires OpeningTwice(vs, files, pages) && |segments| == 2 * |vs| > 0
      ensures |pages| == |vs| && Last(vs).base < TWO_64
      ensures Last(segments).nextOffset == NextAfter(Last(vs).base, Entries(Resized(Last(pages), limits.maxIndex)))
    {
      hide Entries, NextAfter, Resized, Openable;
    }

    lemma {:induction false} FilesOwned()
      requires Valid()
      ensures dir.present && Indexes(dir.files) <= Repr
    {
      hide FileMap, Segment.Valid, Segment.Clean, Good;
      forall b | b in dir.files
        ensures dir.files[b].index in Repr
      {
        var i := FileMapFind(segments, b);
        assert segments[i].Within(Repr);
      }
    }

    /** Moves the offset that an emptied log starts at. */
    method SetInitialOffset(off: uint64)
      requires Valid()
      modifies this`initialOffset
      ensures Valid() && State() == old(State()).(initial := off)
      ensures initialOffset == off && unchanged(`segments) && unchanged(`Repr)
    {
      hide Segment.Valid, Segment.Clean, FileMap, GoodSegment, Contiguous, Segment.Apart;
      initialOffset := off;
    }

    lemma {:induction false} EmptyHolds()
      requires dir.present && dir.files == map[] && GoodLimits(limits)
      ensures Holds(dir, [], limits)
    {
    }

    lemma {:induction false} NoFiles()
      requires dir.files == map[]
      ensures Stores(dir.files) == {} && Indexes(dir.files) == {} && AllPages(dir.files) == {}
    {
    }

    /** Closing the log and removing its directory. */
    method Remove()
      requires Valid()
      modifies dir, Repr
      ensures !dir.present && dir.files == map[]
    {
      hide Holds, Segment.Valid, Segment.Clean, Structured, Good, Contiguous, Views;
      Close();
      dir.present, dir.files := false, map[];
    }

    /** Reset as written lists the directory it has just removed, and fails with
        the segments still in place; `repaired` recreates the directory and
        forgets the segments first. */
    method Reset(repaired: bool) returns (r: Result<()>)
      requires Valid()
      modifies this, dir, Repr
      ensures unchanged(`limits) && unchanged(`initialOffset)
      ensures repaired ==>
              r == Ok(()) && Valid() && fresh(Repr) && State() == LogSpec.Reset(old(State()), initialOffset)
      ensures !repaired ==>
              r == Err(DirectoryMissing) && segments == old(segments) && !dir.present && dir.files == map[]
    {
      hide Holds, Segment.Valid, Segment.Clean, Structured, Good, Contiguous, Stores, Indexes, AllPages, Views;
      Remove();
      if repaired {
        StartOver();
      }
      NoFiles();
      r := Setup(false, []);
      assert Repr - {} - {} - {} == Repr;
    }

    /** The repair: an empty directory, and no segments. */
    method StartOver()
      requires dir.files == map[] && GoodLimits(limits)
      modifies dir`present, this`segments, this`activeSegment, this`Repr
      ensures dir.present && segments == [] && Repr == {} && Holds(dir, [], limits)
    {
      hide Holds;
      dir.present := true;
      segments, activeSegment, Repr := [], null, {};
      EmptyHolds();
    }
  }

  /** NewLog: the fields, then setup. */
  method NewLog(d: Dir, l: Limits, initial: uint64, perFile: bool, ghost vs: seq<SegmentState>)
    returns (log: Log, r: Result<()>)
    requires d.present ==> Holds(d, vs, Defaulted(l))
    modifies d`files, Indexes(d.files)
    ensures fresh(log) && log.dir == d && log.initialOffset == initial
    ensures if l.maxStore == 0 then log.limits.maxStore == 1024 else log.limits.maxStore == l.maxStore
    ensures if l.maxIndex == 0 then log.limits.maxIndex == 1024 else log.limits.maxIndex == l.maxIndex
    ensures !old(d.present) ==> r == Err(DirectoryMissing) && log.segments == [] && unchanged(d)
    ensures old(d.present) && (!perFile || vs == []) ==>
              && r == Ok(()) && log.Valid()
              && log.State() == LogState(log.limits, initial, if vs == [] then [SegmentState(initial, [])] else vs)
    ensures old(d.present) && perFile && vs != [] ==>
              r == Ok(()) && log.Reopened(vs) && |log.segments| == 2 * |vs| && d.files == old(d.files)
  {
    hide Holds, Segment.Valid, Segment.Clean, Log.Structured, Log.Reopened, Good, Contiguous, FileMap, Defaulted;
    log := new Log(d, l, initial);
    assert Stores(d.files) == old(Stores(d.files)) && Indexes(d.files) == old(Indexes(d.files));
    assert AllPages(d.files) == old(AllPages(d.files));
    r := log.Setup(perFile, vs);
  }

  /** A log closed and opened again.  With each base opened once it is the log it
      was; as written it holds every segment twice. */
  method Reopen(log: Log, initial: uint64, perFile: bool) returns (again: Log)
    requires log.Valid()
    modifies log.Repr, log.dir
    ensures fresh(again) && again.limits == old(log.limits)
    ensures !perFile ==> again.Valid() && again.State() == old(log.State()).(initial := initial)
    ensures perFile ==> again.Reopened(old(log.State()).segments) && |again.segments| == 2 * |old(log.segments)|
  {
    hide Holds, Segment.Valid, Segment.Clean, Log.Structured, Log.Reopened, Good, Contiguous, FileMap;
    ghost var st := log.State();
    log.FilesOwned();
    log.Close();
    var r;
    again, r := NewLog(log.dir, log.limits, initial, perFile, st.segments);
  }
}
