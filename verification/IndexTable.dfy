// internal/log/index.go: twelve-byte entries in a mapped file of fixed size.
module IndexTable {
  import opened Bytes
  import opened Wrappers
  import opened Files

  type Entry = (nat, nat)

  function EntryAt(m: bytes, k: nat): Entry
    requires ENTRY_WIDTH * (k + 1) <= |m|
  {
    var at := ENTRY_WIDTH * k;
    (FromBE(m[at..at + OFFSET_WIDTH]), FromBE(m[at + OFFSET_WIDTH..at + ENTRY_WIDTH]))
  }

  /** The whole entries in `m`. */
  function Entries(m: bytes): (es: seq<Entry>)
    ensures |es| == |m| / ENTRY_WIDTH
    ensures forall k :: 0 <= k < |es| ==> es[k] == EntryAt(m, k)
  {
    seq(|m| / ENTRY_WIDTH, k requires 0 <= k < |m| / ENTRY_WIDTH => EntryAt(m, k))
  }

  lemma {:induction false} EntryPrefix(m: bytes, m': bytes, k: nat)
    requires ENTRY_WIDTH * (k + 1) <= |m| <= |m'| && m == m'[..|m|]
    ensures EntryAt(m, k) == EntryAt(m', k)
  {
    var at := ENTRY_WIDTH * k;
    assert m[at..at + OFFSET_WIDTH] == m'[at..at + OFFSET_WIDTH];
    assert m[at + OFFSET_WIDTH..at + ENTRY_WIDTH] == m'[at + OFFSET_WIDTH..at + ENTRY_WIDTH];
  }

  lemma {:induction false} EntriesAppend(m: bytes, off: uint32, pos: uint64)
    requires |m| % ENTRY_WIDTH == 0
    ensures Entries(m + ToBE(off, 4) + ToBE(pos, 8)) == Entries(m) + [(off, pos)]
  {
    var m' := m + ToBE(off, 4) + ToBE(pos, 8);
    var n := |m| / ENTRY_WIDTH;
    forall k | 0 <= k < n
      ensures EntryAt(m, k) == EntryAt(m', k)
    {
      EntryPrefix(m, m', k);
    }
    assert EntryAt(m', n) == (off, pos) by {
      assert m'[|m|..|m| + 4] == ToBE(off, 4);
      assert m'[|m| + 4..|m| + 12] == ToBE(pos, 8);
      FromToBE32(off);
      FromToBE64(pos);
    }
  }

  class Index {
    const file: IndexFile
    const mmap: array<byte>
    var size: nat

    predicate IsMaxed()
      reads this
    {
      mmap.Length < size + ENTRY_WIDTH
    }

    ghost predicate Valid()
      reads this
    {
      size <= mmap.Length
    }

    ghost function Written(): seq<Entry>
      requires Valid()
      reads this, mmap
    {
      Entries(mmap[..size])
    }

    constructor (f: IndexFile, maxIndexBytes: nat)
      modifies f
      ensures file == f && size == old(f.pages.Length)
      ensures Valid() <==> old(f.pages.Length) <= maxIndexBytes
      ensures mmap == f.pages && mmap[..] == Resized(old(f.pages[..]), maxIndexBytes)
      ensures if old(f.pages.Length) == maxIndexBytes then mmap == old(f.pages) else fresh(mmap)
      ensures Valid() ==> Written() == Entries(old(f.pages[..]))
    {
      file, size := f, f.pages.Length;
      f.Truncate(maxIndexBytes);
      mmap := f.pages;
      new;
      assert Valid() ==> mmap[..size] == old(f.pages[..]);
    }

    method Close()
      modifies file
      ensures file.pages[..] == Resized(old(file.pages[..]), size)
      ensures Valid() && old(file.pages) == mmap ==> file.pages[..] == mmap[..size]
      ensures file.pages == old(file.pages) || fresh(file.pages)
    {
      file.Truncate(size);
    }

    /** The slot that argument `arg` of Read denotes after its conversion to uint32. */
    function Slot(arg: int): nat
      reads this
    {
      (if arg == -1 then size / ENTRY_WIDTH - 1 else arg) % TWO_32
    }

    lemma {:induction false} LastSlot()
      requires size / ENTRY_WIDTH <= TWO_32
      ensures Slot(-1) == if size < ENTRY_WIDTH then TWO_32 - 1 else size / ENTRY_WIDTH - 1
    {
    }

    method Read(arg: int) returns (r: Result<Entry>)
      requires Valid()
      ensures r == if size > 0 && Slot(arg) < |Written()| then Ok(Written()[Slot(arg)]) else Err(EndOfFile)
    {
      if size == 0 {
        return Err(EndOfFile);
      }
      var out := Slot(arg);
      var pos := out * ENTRY_WIDTH;
      if size < pos + ENTRY_WIDTH {
        return Err(EndOfFile);
      }
      EntryPrefix(mmap[..size], mmap[..], out);
      return Ok((FromBE(mmap[pos..pos + OFFSET_WIDTH]), FromBE(mmap[pos + OFFSET_WIDTH..pos + ENTRY_WIDTH])));
    }

    /** encoding.PutUint32 and PutUint64: the bytes `b` in place at `at`. */
    method Put(at: nat, b: bytes)
      requires at + |b| <= mmap.Length
      modifies mmap
      ensures mmap[..] == old(mmap[..at]) + b + old(mmap[at + |b|..])
    {
      for k := 0 to |b|
        invariant forall j :: 0 <= j < mmap.Length ==> mmap[j] == if at <= j < at + k then b[j - at] else old(mmap[j])
      {
        mmap[at + k] := b[k];
      }
    }

    method Write(off: uint32, pos: uint64) returns (ok: bool)
      requires Valid()
      modifies this`size, mmap
      ensures Valid() && ok == !old(IsMaxed()) && (ok <==> old(size) + 12 <= mmap.Length)
      ensures mmap[..size] == old(mmap[..size]) + if ok then ToBE(off, OFFSET_WIDTH) + ToBE(pos, 8) else []
      ensures mmap[size..] == old(mmap[..])[size..]
      ensures ok && old(size) % ENTRY_WIDTH == 0 ==> Written() == old(Written()) + [(off, pos)]
      ensures !ok ==> Written() == old(Written())
      ensures size == if ok then old(size) + ENTRY_WIDTH else old(size)
      ensures !ok ==> mmap[..] == old(mmap[..])
    {
      if IsMaxed() {
        return false;
      }
      Put(size, ToBE(off, OFFSET_WIDTH));
      Put(size + OFFSET_WIDTH, ToBE(pos, 8));
      if size % ENTRY_WIDTH == 0 {
        EntriesAppend(old(mmap[..size]), off, pos);
      }
      size := size + ENTRY_WIDTH;
      assert mmap[..size] == old(mmap[..size]) + ToBE(off, 4) + ToBE(pos, 8);
      assert mmap[..size] == old(mmap[..size]) + (ToBE(off, 4) + ToBE(pos, 8));
      return true;
    }
  }
}
