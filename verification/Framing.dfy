// The store's byte format: each payload preceded by its length as eight
// big-endian bytes; and the parser that `fsm.Restore` runs over it.
module Framing {
  import opened Bytes
  import opened Wrappers
  import opened Codec

  const LEN_WIDTH: nat := 8

  function Frame(p: bytes): (f: bytes)
    ensures |f| == LEN_WIDTH + |p|
  {
    ToBE(|p|, LEN_WIDTH) + p
  }

  /** What `store.Read` makes of the bytes at `position`. */
  function ReadFrame(b: bytes, position: nat): Result<bytes> {
    if position + LEN_WIDTH > |b| then Err(EndOfFile)
    else
      var size := FromBE(b[position..position + LEN_WIDTH]);
      if size == 0 then Err(InvalidRecordSize)
      else if position + LEN_WIDTH + size > |b| then Err(EndOfFile)
      else Ok(b[position + LEN_WIDTH..position + LEN_WIDTH + size])
  }

  /** Eight bytes of length, the most significant first, then the payload. */
  lemma {:induction false} FrameBytes(p: bytes)
    ensures forall i :: 0 <= i < 8 ==> Frame(p)[i] == |p| / Pow256(7 - i) % 256
    ensures Frame(p)[8..] == p
  {
    forall i | 0 <= i < 8
      ensures Frame(p)[i] == |p| / Pow256(7 - i) % 256
    {
      ToBEDigit(|p|, 8, i);
    }
  }

  lemma {:induction false} FrameParts(p: bytes, tail: bytes)
    requires |p| < TWO_64
    ensures var b := Frame(p) + tail;
            FromBE(b[..LEN_WIDTH]) == |p| && b[LEN_WIDTH..LEN_WIDTH + |p|] == p
  {
    FromToBE64(|p|);
    var b := Frame(p) + tail;
    assert b[..LEN_WIDTH] == ToBE(|p|, LEN_WIDTH);
  }

  /** A payload is found again at the position where its frame starts, whatever
      follows it, unless it is empty. */
  lemma {:induction false} ReadFrameAt(before: bytes, p: bytes, after: bytes)
    requires |p| < TWO_64
    ensures ReadFrame(before + (Frame(p) + after), |before|) == if p == [] then Err(InvalidRecordSize) else Ok(p)
  {
    hide Frame;
    FrameParts(p, after);
    var rest := Frame(p) + after;
    var b := before + rest;
    assert b[|before|..|before| + LEN_WIDTH] == rest[..LEN_WIDTH];
    assert b[|before| + LEN_WIDTH..|before| + LEN_WIDTH + |p|] == rest[LEN_WIDTH..LEN_WIDTH + |p|];
  }

  // ---------- the parser of fsm.Restore

  datatype Parsed = Parsed(records: seq<Record>, error: Option<Error>)

  /** One round of the restore loop on a non-empty stream: the record and the
      bytes it took.  A length of 2^63 or more turns negative in `int64`, which
      `io.CopyN` answers by copying nothing and reporting no error. */
  function TakeRecord(b: bytes): (r: Result<(Record, nat)>)
    requires b != []
    ensures r.Ok? ==> LEN_WIDTH <= r.value.1 <= |b|
  {
    if |b| < LEN_WIDTH then Err(UnexpectedEndOfFile)
    else
      var header := FromBE(b[..LEN_WIDTH]);
      var size := if header < TWO_63 then header else 0;
      if LEN_WIDTH + size > |b| then Err(EndOfFile)
      else
        var r :- Unmarshal(b[LEN_WIDTH..LEN_WIDTH + size]);
        Ok((r, LEN_WIDTH + size))
  }

  /** The records the loop appends, and the error it returns, if any. */
  function Parse(b: bytes): Parsed {
    if b == [] then Parsed([], None)
    else match TakeRecord(b)
      case Err(e) => Parsed([], Some(e))
      case Ok((r, n)) =>
        var rest := Parse(b[n..]);
        Parsed([r] + rest.records, rest.error)
  }

  /** The bytes a store holds for the records `rs`. */
  function Print(rs: seq<Record>): bytes {
    if rs == [] then [] else Frame(Marshal(rs[0])) + Print(rs[1..])
  }

  lemma {:induction false} PrintConcat(a: seq<Record>, b: seq<Record>)
    ensures Print(a + b) == Print(a) + Print(b)
  {
    if a == [] {
      assert a + b == b;
    } else {
      assert (a + b)[1..] == a[1..] + b;
      calc {
        Print(a + b);
        Frame(Marshal(a[0])) + Print(a[1..] + b);
        { PrintConcat(a[1..], b); }
        Frame(Marshal(a[0])) + (Print(a[1..]) + Print(b));
        Print(a) + Print(b);
      }
    }
  }

  lemma {:induction false} PrintOne(r: Record)
    ensures Print([r]) == Frame(Marshal(r))
  {
    assert [r][1..] == [];
  }

  lemma {:induction false} PrintAppend(rs: seq<Record>, r: Record)
    ensures Print(rs + [r]) == Print(rs) + Frame(Marshal(r))
  {
    PrintConcat(rs, [r]);
    PrintOne(r);
  }

  lemma {:induction false} PrintSplit(rs: seq<Record>, k: nat)
    requires k <= |rs|
    ensures Print(rs) == Print(rs[..k]) + Print(rs[k..])
  {
    assert rs == rs[..k] + rs[k..];
    PrintConcat(rs[..k], rs[k..]);
  }

  /** Splits the printed records at record `k`. */
  lemma {:induction false} PrintAt(rs: seq<Record>, k: nat)
    requires k < |rs|
    ensures Print(rs) == Print(rs[..k]) + (Frame(Marshal(rs[k])) + Print(rs[k + 1..]))
  {
    hide Marshal, Frame;
    PrintSplit(rs, k);
    assert Print(rs[k..]) == Frame(Marshal(rs[k])) + Print(rs[k + 1..]) by {
      assert rs[k..][1..] == rs[k + 1..];
    }
  }

  lemma {:induction false} TakePrinted(r: Record, tail: bytes)
    ensures TakeRecord(Frame(Marshal(r)) + tail) == Ok((r, LEN_WIDTH + |Marshal(r)|))
  {
    hide Frame, Marshal;
    MarshalSize(r);
    FrameParts(Marshal(r), tail);
    UnmarshalMarshal(r);
  }

  lemma {:induction false} ParseRecord(r: Record, tail: bytes)
    ensures Parse(Frame(Marshal(r)) + tail) == Parsed([r] + Parse(tail).records, Parse(tail).error)
  {
    var b := Frame(Marshal(r)) + tail;
    TakePrinted(r, tail);
    assert b[LEN_WIDTH + |Marshal(r)|..] == tail;
  }

  lemma {:induction false} ParsePrintThen(rs: seq<Record>, tail: bytes)
    ensures Parse(Print(rs) + tail) == Parsed(rs + Parse(tail).records, Parse(tail).error)
  {
    hide Marshal, Frame;
    if rs == [] {
      assert Print(rs) + tail == tail;
      assert rs + Parse(tail).records == Parse(tail).records;
    } else {
      calc {
        Parse(Print(rs) + tail);
        { assert Print(rs) + tail == Frame(Marshal(rs[0])) + (Print(rs[1..]) + tail); }
        Parse(Frame(Marshal(rs[0])) + (Print(rs[1..]) + tail));
        { ParseRecord(rs[0], Print(rs[1..]) + tail); ParsePrintThen(rs[1..], tail); }
        Parsed([rs[0]] + (rs[1..] + Parse(tail).records), Parse(tail).error);
        { assert [rs[0]] + (rs[1..] + Parse(tail).records) == rs + Parse(tail).records; }
        Parsed(rs + Parse(tail).records, Parse(tail).error);
      }
    }
  }

  /** The restore parser inverts the store's printer. */
  lemma {:induction false} ParsePrint(rs: seq<Record>)
    ensures Parse(Print(rs)) == Parsed(rs, None)
  {
    ParsePrintThen(rs, []);
    assert Print(rs) + [] == Print(rs);
    assert rs + [] == rs;
  }

  /** A header of 2^63 or more is a negative count: nothing is copied, and the record
      is the all-default one, without an error. */
  lemma {:induction false} HugeHeader(b: bytes)
    requires |b| >= 8 && FromBE(b[..8]) >= TWO_63
    ensures TakeRecord(b) == Ok((DEFAULT, 8))
    ensures Parse(b) == Parsed([DEFAULT] + Parse(b[8..]).records, Parse(b[8..]).error)
  {
    assert b[8..8] == [];
  }

  /** How many whole frames of `rs` lie in the first `n` printed bytes. */
  function WholeFrames(rs: seq<Record>, n: nat): (k: nat)
    ensures k <= |rs|
  {
    if rs == [] || LEN_WIDTH + |Marshal(rs[0])| > n then 0
    else 1 + WholeFrames(rs[1..], n - (LEN_WIDTH + |Marshal(rs[0])|))
  }

  lemma {:induction false} ParseTorn(p: bytes, n: nat)
    requires |p| < TWO_63 && 0 < n < LEN_WIDTH + |p|
    ensures Parse(Frame(p)[..n]) == Parsed([], Some(if n < 8 then UnexpectedEndOfFile else EndOfFile))
  {
    var cut := Frame(p)[..n];
    if n >= LEN_WIDTH {
      FromToBE64(|p|);
      assert cut[..LEN_WIDTH] == ToBE(|p|, LEN_WIDTH);
    }
  }

  lemma {:induction false} ParseFirstWhole(rs: seq<Record>, n: nat)
    requires rs != [] && |Frame(Marshal(rs[0]))| <= n <= |Print(rs)|
    ensures var f := Frame(Marshal(rs[0]));
            var rest := Parse(Print(rs[1..])[..n - |f|]);
            var k := WholeFrames(rs[1..], n - |f|);
            && Parse(Print(rs)[..n]) == Parsed([rs[0]] + rest.records, rest.error)
            && rs[..WholeFrames(rs, n)] == [rs[0]] + rs[1..][..k]
            && |Print(rs[..WholeFrames(rs, n)])| == |f| + |Print(rs[1..][..k])|
  {
    hide Marshal, Frame, Parse;
    var f := Frame(Marshal(rs[0]));
    var k := WholeFrames(rs[1..], n - |f|);
    assert Print(rs) == f + Print(rs[1..]);
    assert Print(rs)[..n] == f + Print(rs[1..])[..n - |f|] by {
      hide Parse, Print, WholeFrames;
    }
    ParseRecord(rs[0], Print(rs[1..])[..n - |f|]);
    assert WholeFrames(rs, n) == k + 1;
    assert rs[..k + 1][1..] == rs[1..][..k];
  }

  /** A stream cut anywhere yields exactly the records whose frames are whole,
      and is accepted without an error exactly at a frame boundary; a torn length
      and a torn payload have each their own error. */
  lemma {:induction false} ParseTruncated(rs: seq<Record>, n: nat)
    requires n <= |Print(rs)|
    ensures Parse(Print(rs)[..n]).records == rs[..WholeFrames(rs, n)]
    ensures |Print(rs[..WholeFrames(rs, n)])| <= n
    ensures Parse(Print(rs)[..n]).error ==
            var torn := n - |Print(rs[..WholeFrames(rs, n)])|;
            if torn == 0 then None else if torn < 8 then Some(UnexpectedEndOfFile) else Some(EndOfFile)
  {
    hide Marshal, Frame;
    if rs == [] {
    } else {
      var f := Frame(Marshal(rs[0]));
      if |f| > n {
        assert rs[..WholeFrames(rs, n)] == [];
        assert Print(rs)[..n] == f[..n];
        if n > 0 {
          MarshalSize(rs[0]);
          ParseTorn(Marshal(rs[0]), n);
        }
      } else {
        ParseTruncated(rs[1..], n - |f|);
        ParseFirstWhole(rs, n);
      }
    }
  }
}
