// The parts of the operating system the log uses: append-only data files,
// index files whose pages can be mapped, and the directory that names them.
module Files {
  import opened Bytes

  /** A `.store` file, opened with O_APPEND. */
  class DataFile {
    var data: bytes

    constructor ()
      ensures data == []
    {
      data := [];
    }
  }

  /** The bytes of a file cut or zero-extended to length `n`. */
  function Resized(b: bytes, n: nat): (r: bytes)
    ensures |r| == n
    ensures forall k :: 0 <= k < n && k < |b| ==> r[k] == b[k]
  {
    if n <= |b| then b[..n] else b + seq(n - |b|, _ => 0)
  }

  /** An `.index` file.  A shared mapping of the file is its array of pages. */
  class IndexFile {
    var pages: array<byte>

    constructor ()
      ensures pages.Length == 0 && fresh(pages)
    {
      pages := new byte[0];
    }

    method Truncate(n: nat)
      modifies this
      ensures pages[..] == Resized(old(pages[..]), n)
      ensures if n == old(pages.Length) then pages == old(pages) else fresh(pages)
    {
      if n != pages.Length {
        var was := pages;
        pages := new byte[n];
        var k := 0;
        while k < n
          invariant 0 <= k <= n && pages.Length == n && fresh(pages) && was[..] == old(pages[..])
          invariant forall j :: 0 <= j < k ==> pages[j] == if j < was.Length then was[j] else 0
        {
          pages[k] := if k < was.Length then was[k] else 0;
          k := k + 1;
        }
      }
    }
  }

  datatype Pair = Pair(store: DataFile, index: IndexFile)

  /** A log's directory: `files[base]` are the files `<base>.store` and
      `<base>.index`, which newSegment always creates together. */
  class Dir {
    var present: bool
    var files: map<nat, Pair>

    constructor ()
      ensures present && files == map[]
    {
      present, files := true, map[];
    }

    ghost function Objects(base: nat): set<object>
      reads this, if base in files then {files[base].index} else {}
    {
      if base in files then {files[base].store, files[base].index, files[base].index.pages} else {}
    }

    /** The bytes of a store file, none if it does not exist. */
    ghost function Data(base: nat): bytes
      reads this, if base in files then {files[base].store} else {}
    {
      if base in files then files[base].store.data else []
    }

    ghost function Pages(base: nat): bytes
      reads this, if base in files then {files[base].index, files[base].index.pages} else {}
    {
      if base in files then files[base].index.pages[..] else []
    }

    /** os.OpenFile with O_CREATE, for both files. */
    method Open(base: nat) returns (f: Pair)
      modifies this`files
      ensures files == old(files)[base := f]
      ensures if base in old(files) then f == old(files)[base]
              else fresh(f.store) && fresh(f.index) && fresh(f.index.pages)
      ensures f.store.data == old(Data(base)) && f.index.pages[..] == old(Pages(base))
    {
      if base in files {
        f := files[base];
      } else {
        var sf := new DataFile();
        var xf := new IndexFile();
        f := Pair(sf, xf);
      }
      files := files[base := f];
    }
  }

  /** No two bases share a file or its pages. */
  ghost predicate FilesApart(files: map<nat, Pair>)
    reads set b | b in files :: files[b].index
  {
    forall a, b :: a in files && b in files && a != b ==>
      && files[a].store != files[b].store && files[a].index != files[b].index
      && files[a].index.pages != files[b].index.pages
  }

  ghost function Stores(files: map<nat, Pair>): set<object> {
    set b | b in files :: files[b].store
  }

  ghost function Indexes(files: map<nat, Pair>): set<object> {
    set b | b in files :: files[b].index
  }

  ghost function AllPages(files: map<nat, Pair>): set<object>
    reads set b | b in files :: files[b].index
  {
    set b | b in files :: files[b].index.pages
  }
}
