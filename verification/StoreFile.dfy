// internal/log/store.go: a file of length-prefixed payloads behind a write buffer.
module StoreFile {
  import opened Bytes
  import opened Wrappers
  import opened Framing
  import opened Files

  class Store {
    const file: DataFile
    var buf: bytes
    var size: nat

    /** Everything appended so far: the file's bytes, then those still buffered. */
    ghost function Contents(): bytes
      reads this, file
    {
      file.data + buf
    }

    ghost predicate Valid()
      reads this, file
    {
      size == |Contents()|
    }

    constructor (f: DataFile)
      ensures Valid() && file == f && buf == [] && Contents() == f.data
    {
      file, buf, size := f, [], |f.data|;
    }

    /** bufio.Writer.Write: any prefix of what is buffered may reach the file. */
    method Write(p: bytes)
      modifies this`buf, file
      ensures Contents() == old(Contents()) + p
      ensures old(file.data) <= file.data
    {
      buf := buf + p;
      var n: nat :| n <= |buf|;
      file.data := file.data + buf[..n];
      buf := buf[n..];
    }

    method Flush()
      modifies this`buf, file
      ensures buf == [] && file.data == Contents() == old(Contents())
    {
      file.data := file.data + buf;
      buf := [];
    }

    method Append(p: bytes) returns (n: nat, position: nat)
      requires Valid()
      modifies this, file
      ensures Valid()
      ensures Contents() == old(Contents()) + Frame(p)
      ensures position == |old(Contents())| && n == |Frame(p)|
      ensures old(file.data) <= file.data
    {
      position := size;
      Write(ToBE(|p|, LEN_WIDTH));
      Write(p);
      n := |p| + LEN_WIDTH;
      size := size + n;
    }

    /** os.File.ReadAt: fewer than `n` bytes come with io.EOF. */
    method FileReadAt(n: nat, off: nat) returns (p: bytes, eof: bool)
      ensures p == if off >= |file.data| then []
                   else if off + n <= |file.data| then file.data[off..off + n]
                   else file.data[off..]
      ensures eof <==> |p| < n
    {
      p := if off >= |file.data| then []
           else if off + n <= |file.data| then file.data[off..off + n]
           else file.data[off..];
      eof := |p| < n;
    }

    method Read(position: nat) returns (r: Result<bytes>)
      modifies this`buf, file
      ensures Contents() == old(Contents()) && old(file.data) <= file.data
      ensures r == ReadFrame(Contents(), position)
    {
      Flush();
      var header, short := FileReadAt(LEN_WIDTH, position);
      if short {
        return Err(EndOfFile);
      }
      var size := FromBE(header);
      if size == 0 {
        return Err(InvalidRecordSize);
      }
      var p, torn := FileReadAt(size, position + LEN_WIDTH);
      if torn {
        return Err(EndOfFile);
      }
      return Ok(p);
    }

    method ReadAt(n: nat, off: nat) returns (p: bytes, eof: bool)
      modifies this`buf, file
      ensures Contents() == old(Contents()) && old(file.data) <= file.data
      ensures off <= |Contents()| ==> p <= Contents()[off..]
      ensures off > |Contents()| ==> p == []
      ensures |p| <= n && (eof <==> |p| < n)
      ensures eof ==> off + |p| >= |Contents()|
    {
      Flush();
      p, eof := FileReadAt(n, off);
    }

    method Close()
      modifies this`buf, file
      ensures file.data == Contents() == old(Contents()) && buf == []
    {
      Flush();
    }
  }

  /** A payload once appended reads back at its position whatever is appended
      later, and again after the file is closed and reopened. */
  method ReadBack(s: Store, before: seq<bytes>, p: bytes, after: seq<bytes>)
    returns (open: Result<bytes>, reopened: Result<bytes>)
    requires s.Valid() && |p| < TWO_64
    modifies s, s.file
    ensures open == reopened == if p == [] then Err(InvalidRecordSize) else Ok(p)
  {
    ghost var c0 := s.Contents();
    var _, position := s.Append(p);
    var k := 0;
    ghost var tail: bytes := [];
    while k < |after|
      invariant 0 <= k <= |after| && s.Valid()
      invariant s.Contents() == c0 + (Frame(p) + tail)
    {
      ghost var t := tail;
      var _, _ := s.Append(after[k]);
      tail := tail + Frame(after[k]);
      k := k + 1;
      assert (c0 + (Frame(p) + t)) + Frame(after[k - 1]) == c0 + (Frame(p) + (t + Frame(after[k - 1])));
    }
    ReadFrameAt(c0, p, tail);
    open := s.Read(position);
    s.Close();
    var again := new Store(s.file);
    reopened := again.Read(position);
  }
}
