// internal/server/log.go: the log kept in one slice, which the segmented log refines.
module FlatLog {
  import opened Bytes
  import opened Wrappers
  import opened Codec

  function Append(records: seq<Record>, r: Record): seq<Record>
    requires |records| < TWO_64
  {
    records + [Stamp(r, |records|)]
  }

  function Read(records: seq<Record>, off: nat): Option<Record> {
    if off >= |records| then None else Some(records[off])
  }

  /** After an append the new record is read at the returned offset, and every
      other offset reads as before. */
  lemma {:induction false} ReadAppended(records: seq<Record>, r: Record, off: nat)
    requires |records| < TWO_64
    ensures Read(Append(records, r), off) == if off == |records| then Some(Stamp(r, off)) else Read(records, off)
  {
  }

  class Log {
    var records: seq<Record>

    /** Every record carries the offset that it is read at. */
    ghost predicate Valid()
      reads this
    {
      forall k :: 0 <= k < |records| ==> records[k].offset == k
    }

    constructor ()
      ensures Valid() && records == []
    {
      records := [];
    }

    method AppendRecord(r: Record) returns (off: nat)
      requires Valid() && |records| < TWO_64
      modifies this
      ensures Valid() && off == |old(records)| && |records| == off + 1
      ensures old(records) <= records && records[off] == Stamp(r, off)
      ensures forall k: nat :: k != off ==> Read(records, k) == old(Read(records, k))
    {
      off := |records|;
      records := records + [Stamp(r, off)];
    }

    method ReadRecord(off: nat) returns (r: Option<Record>)
      requires Valid()
      ensures r.Some? <==> off < |records|
      ensures r.Some? ==> r.value in records && r.value.offset == off && r.value == records[off]
    {
      if off >= |records| {
        return None;
      }
      return Some(records[off]);
    }
  }
}
