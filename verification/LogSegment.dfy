// internal/log/segment.go: a store and the index of its records, kept in step.
module LogSegment {
  import opened Bytes
  import opened Wrappers
  import opened Codec
  import opened Framing
  import opened LogSpec
  import opened Files
  import opened StoreFile
  import opened IndexTable

  /** Index entry `k` of a segment: relative offset `k`, and the bytes before it. */
  function EntriesFor(rs: seq<Record>): (es: seq<Entry>)
    ensures |es| == |rs|
    ensures forall k :: 0 <= k < |rs| ==> es[k] == (k, |Print(rs[..k])|)
  {
    seq(|rs|, k requires 0 <= k < |rs| => (k as nat, |Print(rs[..k])|))
  }

  lemma {:induction false} EntriesForAppend(rs: seq<Record>, r: Record)
    ensures EntriesFor(rs + [r]) == EntriesFor(rs) + [(|rs|, |Print(rs)|)]
  {
    hide Print;
    forall k | 0 <= k < |rs|
      ensures (rs + [r])[..k] == rs[..k]
    {
    }
    assert (rs + [r])[..|rs|] == rs;
  }

  /** What a clean Close leaves in the two files of segment `s`. */
  ghost predicate ClosedImage(data: bytes, pages: bytes, s: SegmentState, l: Limits) {
    && GoodLimits(l) && GoodSegment(s, l)
    && data == Print(s.records)
    && |pages| == s.IndexSize()
    && Entries(pages) == EntriesFor(s.records)
  }

  /** An index file that newSegment can map without indexing past its pages. */
  predicate Openable(pages: bytes, l: Limits) {
    GoodLimits(l) && |pages| <= l.maxIndex
  }

  /** The next offset that `newSegment` reads off an index file. */
  function NextAfter(base: uint64, es: seq<Entry>): uint64 {
    if es == [] then base else (base + es[|es| - 1].0 + 1) % TWO_64
  }

  lemma {:induction false} NextAfterLast(base: uint64, es: seq<Entry>, last: Result<Entry>)
    requires last == if es == [] then Err(EndOfFile) else Ok(es[|es| - 1])
    ensures NextAfter(base, es) == if last.Ok? then (base + last.value.0 + 1) % TWO_64 else base
  {
  }

  lemma {:induction false} ZeroBE(b: bytes)
    requires forall k :: 0 <= k < |b| ==> b[k] == 0
    ensures FromBE(b) == 0
  {
    if b != [] {
      ZeroBE(b[..|b| - 1]);
    }
  }

  lemma {:induction false} GrownEntry(pages: bytes, n: nat, k: nat)
    requires |pages| % ENTRY_WIDTH == 0 && ENTRY_WIDTH * (k + 1) <= n
    ensures EntryAt(Resized(pages, n), k).0 == if k < |pages| / ENTRY_WIDTH then EntryAt(pages, k).0 else 0
  {
    var grown, at := Resized(pages, n), ENTRY_WIDTH * k;
    if k < |pages| / ENTRY_WIDTH {
      assert grown[at..at + OFFSET_WIDTH] == pages[at..at + OFFSET_WIDTH];
    } else {
      ZeroBE(grown[at..at + OFFSET_WIDTH]);
    }
  }

  /** Opened a second time, after the first opening has grown the index file to
      its full size, a segment is taken to end one past its base, whatever it
      holds, unless its index is full. */
  lemma {:induction false} NextOnSecondOpening(data: bytes, pages: bytes, s: SegmentState, l: Limits)
    requires ClosedImage(data, pages, s, l)
    ensures NextAfter(s.base, Entries(pages)) == s.Next()
    ensures NextAfter(s.base, Entries(Resized(pages, l.maxIndex))) == NextOpenedTwice(s, l)
  {
    hide Print, EntryAt, Resized;
    if s.records != [] {
      assert Entries(pages)[|s.records| - 1].0 == |s.records| - 1;
    }
    GrownEntry(pages, l.maxIndex, l.maxIndex / ENTRY_WIDTH - 1);
  }

  function NextOpenedTwice(s: SegmentState, l: Limits): nat {
    if |s.records| == l.maxIndex / ENTRY_WIDTH then s.Next() else (s.base + 1) % TWO_64
  }

  /** Inside the segment no cast loses anything, and the record at the offset is read. */
  lemma {:induction false} ReadInside(s: SegmentState, off: uint64)
    requires s.base <= off < s.Next() && |s.records| <= TWO_32
    ensures ReadSegment(s, off) == Fetch(s.records[off - s.base])
  {
    hide Fetch;
    assert (off - s.base) % TWO_64 == off - s.base;
    assert (off - s.base) % TWO_32 == off - s.base;
  }

  /** segment.Read for every uint64 argument, inside the segment or not. */
  function ReadSegment(s: SegmentState, off: uint64): Result<Record> {
    var d := (off - s.base) % TWO_64;
    var k := (if d == TWO_64 - 1 then |s.records| - 1 else d) % TWO_32;
    if k < |s.records| then Fetch(s.records[k]) else Err(EndOfFile)
  }

  /** Outside the segment a read is refused except in two families of offsets:
      the one just below the base, whose difference is the index's code -1 for its
      last entry, and those whose difference uint32 cuts down to a stored entry.
      Both read a record of another offset. */
  lemma {:induction false} ReadOutside(s: SegmentState, off: uint64)
    requires s.Next() < TWO_64 && |s.records| < TWO_32
    requires off < s.base || s.Next() <= off
    ensures var d := (off - s.base) % TWO_64;
            && (ReadSegment(s, off) == Err(EndOfFile) <==>
                  s.records == [] || (d != TWO_64 - 1 && d % TWO_32 >= |s.records|))
            && (d == TWO_64 - 1 && s.records != [] ==> ReadSegment(s, off) == Fetch(s.records[|s.records| - 1]))
            && (d != TWO_64 - 1 && d % TWO_32 < |s.records| ==>
                  ReadSegment(s, off) == Fetch(s.records[d % TWO_32]) && off != s.base + d % TWO_32)
  {
    hide Fetch;
    forall r | r in s.records
      ensures Fetch(r) != Err(EndOfFile)
    {
      FetchResult(r);
    }
  }

  lemma {:induction false} FetchResult(r: Record)
    ensures Fetch(r) != Err(EndOfFile)
  {
  }

  /** uint32 keeps the low half of a uint64 that int64 turned negative. */
  lemma {:induction false} SignedSlot(d: uint64)
    ensures (d - TWO_64) % TWO_32 == d % TWO_32
  {
    assert d - TWO_64 == d - TWO_32 * TWO_32;
  }

  /** The store finds the payload of record `k` at the position the index gives. */
  lemma {:induction false} ReadIndexed(rs: seq<Record>, k: nat, contents: bytes)
    requires k < |rs| && Print(rs) <= contents
    ensures ReadFrame(contents, |Print(rs[..k])|) ==
            if Marshal(rs[k]) == [] then Err(InvalidRecordSize) else Ok(Marshal(rs[k]))
  {
    hide Print, Marshal, Frame, ReadFrame;
    PrintAt(rs, k);
    MarshalSize(rs[k]);
    var a, f, b, c := Print(rs[..k]), Frame(Marshal(rs[k])), Print(rs[k + 1..]), contents[|Print(rs)|..];
    assert contents == a + (f + (b + c)) by {
      assert contents == (a + (f + b)) + c;
    }
    ReadFrameAt(a, Marshal(rs[k]), b + c);
  }

  lemma {:induction false} NothingIn(position: nat)
    ensures ReadFrame([], position) == Err(EndOfFile)
  {
  }

  class Segment {
    const store: Store
    const index: Index
    const baseOffset: uint64
    const limits: Limits
    var nextOffset: uint64
    ghost var records: seq<Record>

    ghost function Repr(): set<object> {
      {this, store, store.file, index, index.file, index.mmap}
    }

    ghost predicate Within(objects: set<object>) {
      && this in objects && store in objects && store.file in objects
      && index in objects && index.file in objects && index.mmap in objects
    }

    /** No object belongs to both segments. */
    predicate Apart(other: Segment) {
      && this != other && store != other.store && store.file != other.store.file
      && index != other.index && index.file != other.index.file && index.mmap != other.index.mmap
    }

    function Files(): Pair {
      Pair(store.file, index.file)
    }

    ghost function View(): SegmentState
      reads this
    {
      SegmentState(baseOffset, records)
    }

    /** Enough for the code to run: what a reopened handle satisfies as well. */
    ghost predicate Opened()
      reads this, store, store.file, index, index.file, index.mmap
    {
      store.Valid() && index.Valid()
    }

    /** Index entry k is (k, bytes before record k), the sizes agree, and the store
        holds exactly the printed records unless an append hit a full index. */
    ghost predicate Valid()
      reads this, store, store.file, index, index.file, index.mmap
      ensures Valid() ==>
              Opened() && nextOffset == View().Next() && |records| < TWO_32 && index.file.pages == index.mmap
    {
      && Opened()
      && GoodLimits(limits) && GoodSegment(View(), limits)
      && nextOffset == View().Next()
      && index.mmap.Length == limits.maxIndex
      && index.file.pages == index.mmap
      && index.size == View().IndexSize()
      && index.Written() == EntriesFor(records)
      && Print(records) <= store.Contents()
      && (!index.IsMaxed() ==> Clean())
    }

    ghost predicate Clean()
      reads this, store, store.file, index, index.file, index.mmap
    {
      store.Contents() == Print(records)
    }

    constructor (f: Pair, base: uint64, l: Limits, ghost rs: seq<Record>)
      requires Openable(f.index.pages[..], l)
      modifies f.index
      ensures Files() == f && baseOffset == base && limits == l && records == rs
      ensures fresh(store) && fresh(index)
      ensures if |old(f.index.pages[..])| == l.maxIndex then index.mmap == old(f.index.pages) else fresh(index.mmap)
      ensures Opened()
      ensures nextOffset == NextAfter(base, Entries(old(f.index.pages[..])))
      ensures index.mmap[..] == Resized(old(f.index.pages[..]), l.maxIndex) && index.mmap == f.index.pages
      ensures store.Contents() == f.store.data && store.buf == []
      ensures index.size == old(f.index.pages.Length) && index.Written() == Entries(old(f.index.pages[..]))
    {
      hide Entries, IndexTable.Index.Slot, Resized, NextAfter, FromBE, ToBE, EntryAt;
      baseOffset, limits, records := base, l, rs;
      store := new Store(f.store);
      var x := new Index(f.index, l.maxIndex);
      index := x;
      x.LastSlot();
      var last := x.Read(-1);
      ghost var es := x.Written();
      NextAfterLast(base, es, last);
      nextOffset := if last.Ok? then (base + last.value.0 + 1) % TWO_64 else base;
    }

    /** Opening the files of a clean Close yields the segment they were closed from. */
    lemma {:induction false} ImageOpens(data: bytes, pages: bytes)
      requires Opened() && store.Contents() == data
      requires index.size == |pages| && index.Written() == Entries(pages)
      requires index.mmap.Length == limits.maxIndex && index.file.pages == index.mmap
      requires nextOffset == NextAfter(baseOffset, Entries(pages))
      requires ClosedImage(data, pages, View(), limits)
      ensures Valid() && Clean()
    {
      hide Print, Entries;
      if records != [] {
        assert EntriesFor(records)[|records| - 1].0 == |records| - 1;
      }
    }

    /** Whether the segment can take another record without rotating first. */
    ghost predicate HasRoom()
      reads this, store, store.file, index, index.file, index.mmap
    {
      Valid() && Clean() && !LogSpec.IsMaxed(View(), limits) && View().Next() + 1 < TWO_64
    }

    /** What the append of `record` to view `v` has left in the fields makes the
        segment valid, and clean, for the longer view. */
    lemma {:induction false} Extended(v: SegmentState, record: Record)
      requires GoodLimits(limits) && GoodSegment(v, limits) && !LogSpec.IsMaxed(v, limits) && v.Next() + 1 < TWO_64
      requires Opened() && View() == AppendRecord(v, record) && nextOffset == v.Next() + 1
      requires index.mmap.Length == limits.maxIndex && index.file.pages == index.mmap
      requires index.size == v.IndexSize() + ENTRY_WIDTH
      requires index.Written() == EntriesFor(v.records) + [(|v.records|, |Print(v.records)|)]
      requires store.Contents() == Print(v.records) + Frame(Marshal(Stamp(record, v.Next())))
      ensures Valid() && Clean()
    {
      hide Print, Marshal, Frame, EntriesFor, GoodSegment;
      EntriesForAppend(v.records, Stamp(record, v.Next()));
      PrintAppend(v.records, Stamp(record, v.Next()));
      AppendRecordGood(v, record, limits);
    }

    lemma {:induction false} RoomMeans()
      requires HasRoom()
      ensures !index.IsMaxed() && index.Written() == EntriesFor(records) && store.Contents() == Print(records)
      ensures GoodLimits(limits) && GoodSegment(View(), limits) && nextOffset - baseOffset == |records| < TWO_32
      ensures index.mmap.Length == limits.maxIndex && index.size == View().IndexSize() && index.file.pages == index.mmap
      ensures !LogSpec.IsMaxed(View(), limits) && View().Next() + 1 < TWO_64
    {
      hide Print, EntriesFor, GoodSegment;
    }

    /** A failed append leaves an orphan frame in the store and nothing else. */
    twostate lemma {:induction false} OrphanKept()
      requires old(Valid()) && old(index.IsMaxed()) && Opened() && old(store.Contents()) <= store.Contents()
      requires nextOffset == old(nextOffset) && records == old(records) && unchanged(index.file)
      requires index.size == old(index.size) && index.mmap[..] == old(index.mmap[..])
      ensures Valid()
    {
      hide Print, EntriesFor, Entries, GoodSegment;
    }

    method Append(record: Record) returns (r: Result<nat>)
      requires Opened() && store.size < TWO_63
      modifies this, store, store.file, index, index.mmap
      ensures Opened() && store.Contents() == old(store.Contents()) + Frame(Marshal(Stamp(record, old(nextOffset))))
      ensures old(index.IsMaxed()) ==>
                r == Err(EndOfFile) && nextOffset == old(nextOffset) && records == old(records)
                && index.size == old(index.size) && index.mmap[..] == old(index.mmap[..])
      ensures old(Valid()) && old(index.IsMaxed()) ==> Valid()
      ensures old(HasRoom()) ==>
                && r == Ok(old(View().Next()))
                && Valid() && Clean() && View() == AppendRecord(old(View()), record)
    {
      hide Print, Marshal, Frame, EntriesFor, Entries, GoodSegment, HasRoom, Valid, Clean, LogSpec.IsMaxed, ToBE;
      ghost var room, v := HasRoom(), View();
      if room {
        RoomMeans();
      }
      var curr := nextOffset;
      var stamped := Stamp(record, curr);
      var _, pos := store.Append(Marshal(stamped));
      var ok := index.Write((nextOffset - baseOffset) % TWO_32, pos);
      if !ok {
        if old(Valid()) {
          OrphanKept();
        }
        return Err(EndOfFile);
      }
      nextOffset := (nextOffset + 1) % TWO_64;
      records := records + [stamped];
      if room {
        assert stamped == Stamp(record, v.Next());
        assert index.Written() == EntriesFor(v.records) + [(|v.records|, |Print(v.records)|)];
        Extended(v, record);
      }
      return Ok(curr);
    }

    /** Whether Log.Read stops at this segment for `off`. */
    predicate Covering(off: nat, strict: bool)
      reads this
    {
      baseOffset <= off && if strict then off < nextOffset else off <= nextOffset
    }

    /** What the index answers to the difference between `off` and the base. */
    lemma {:induction false} LookedUp(off: uint64, arg: int, entry: Result<Entry>)
      requires Valid() && var d := (off - baseOffset) % TWO_64; arg == if d < TWO_63 then d else d - TWO_64
      requires entry ==
               if index.size > 0 && index.Slot(arg) < |index.Written()| then Ok(index.Written()[index.Slot(arg)])
                        else Err(EndOfFile)
      ensures match entry
              case Err(e) => e == EndOfFile && ReadSegment(View(), off) == Err(EndOfFile)
              case Ok((k, pos)) =>
                && k < |records| && pos == |Print(records[..k])|
                && ReadSegment(View(), off) == Fetch(records[k])
    {
      hide Print, Marshal, Fetch, Entries, GoodSegment, Clean;
      SignedSlot((off - baseOffset) % TWO_64);
    }

    /** On a valid segment the read selects from the records; any other handle, as long
        as its store and index are open, at least finds nothing in an empty store. */
    method Read(off: uint64) returns (r: Result<Record>)
      requires Opened()
      modifies store`buf, store.file
      ensures Opened() && store.Contents() == old(store.Contents()) && old(store.file.data) <= store.file.data
      ensures old(Valid()) ==> Valid() && Clean() == old(Clean()) && r == ReadSegment(View(), off)
      ensures store.Contents() == [] ==> r == Err(EndOfFile)
    {
      hide Print, Marshal, Frame, Unmarshal, ReadFrame, ReadSegment, Entries, EntriesFor, GoodSegment;
      hide IndexTable.Index.Slot;
      var d := (off - baseOffset) % TWO_64;
      var entry := index.Read(if d < TWO_63 then d else d - TWO_64);
      if Valid() {
        LookedUp(off, if d < TWO_63 then d else d - TWO_64, entry);
      }
      if entry.Err? {
        return Err(entry.error);
      }
      ghost var k := entry.value.0;
      if Valid() {
        ReadIndexed(records, k, store.Contents());
        UnmarshalMarshal(records[k]);
      }
      NothingIn(entry.value.1);
      var p := store.Read(entry.value.1);
      if p.Err? {
        return Err(p.error);
      }
      r := Unmarshal(p.value);
    }

    /** None of the values that make up this handle has changed. */
    twostate predicate Same()
      reads this, store, store.file, index, index.file, index.mmap
    {
      && nextOffset == old(nextOffset) && records == old(records)
      && store.buf == old(store.buf) && store.size == old(store.size) && store.file.data == old(store.file.data)
      && index.size == old(index.size) && index.file.pages == old(index.file.pages)
      && index.mmap[..] == old(index.mmap[..])
    }

    twostate lemma {:induction false} Undisturbed()
      requires Same()
      ensures Opened() == old(Opened()) && Valid() == old(Valid()) && Clean() == old(Clean())
      ensures View() == old(View()) && store.Contents() == old(store.Contents())
    {
      hide Print, EntriesFor, Entries, GoodSegment;
    }

    twostate lemma {:induction false} Flushed()
      requires old(Valid()) && unchanged(this) && unchanged(index) && unchanged(index.file) && unchanged(index.mmap)
      requires store.size == old(store.size) && store.Contents() == old(store.Contents())
      ensures Valid() && Clean() == old(Clean()) && View() == old(View())
    {
      hide Print, EntriesFor, Entries, GoodSegment;
    }

    lemma {:induction false} ViewGood()
      requires Valid()
      ensures GoodSegment(View(), limits)
    {
    }

    lemma {:induction false} CleanSize()
      requires Valid() && Clean()
      ensures store.size == View().StoreSize() && index.file.pages == index.mmap
      ensures index.mmap.Length == limits.maxIndex && |store.file.data| <= store.size
    {
    }

    predicate IsMaxed()
      requires Opened()
      reads this, store, store.file, index, index.file, index.mmap
      ensures Valid() && Clean() ==> IsMaxed() == LogSpec.IsMaxed(View(), limits)
      ensures Valid() && Clean() ==>
                (IsMaxed() <==> |Print(records)| >= limits.maxStore || 12 * (|records| + 1) > limits.maxIndex)
    {
      store.size >= limits.maxStore || index.size >= limits.maxIndex || index.IsMaxed()
    }

    method Close()
      requires Valid() && Clean()
      modifies store`buf, store.file, index.file
      ensures ClosedImage(store.file.data, index.file.pages[..], View(), limits)
      ensures index.file.pages == index.mmap || fresh(index.file.pages)
    {
      index.Close();
      store.Close();
    }

    method Remove(dir: Dir)
      requires Valid() && Clean()
      modifies store`buf, store.file, index.file, dir`files
      ensures dir.files == old(dir.files) - {baseOffset}
    {
      Close();
      dir.files := dir.files - {baseOffset};
    }
  }
}
