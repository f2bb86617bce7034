// The proto3 wire form of the two messages the log stores and replicates:
// `Record` and `ProduceRequest` (api/v1/log.proto).  Marshalling writes the
// fields in order and omits those that hold their default; unmarshalling
// accepts fields in any order, lets a later occurrence win and skips unknown
// ones.
module Codec {
  import opened Bytes
  import opened Wrappers

  /** Protocol buffers limit a message to 2 GiB. */
  type Payload = b: bytes | |b| < 0x8000_0000

  datatype Record = Record(value: Payload, offset: uint64, term: uint64, kind: uint32)

  const DEFAULT: Record := Record([], 0, 0, 0)

  function Stamp(r: Record, offset: uint64): Record {
    r.(offset := offset)
  }

  // ---------- base-128 varints

  function PutVarint(n: nat): (b: bytes)
    ensures |b| > 0
  {
    if n < 128 then [n] else [n % 128 + 128] + PutVarint(n / 128)
  }

  /** Exclusive bound on what `limit` varint bytes may hold: ten bytes hold 64 bits. */
  function VarintBound(limit: nat): (n: nat)
    ensures limit > 1 ==> n >= 256
  {
    if limit == 0 then 0 else if limit == 1 then 2 else 128 * VarintBound(limit - 1)
  }

  /** The value and the number of bytes it took; more than `limit` bytes, or a
      last byte that overflows 64 bits, is malformed. */
  function TakeVarint(b: bytes, limit: nat): (r: Result<(nat, nat)>)
    ensures r.Ok? ==> r.value.0 < VarintBound(limit) && 0 < r.value.1 <= |b|
  {
    if b == [] || limit == 0 then Err(MalformedMessage)
    else if b[0] < 128 then
      if limit == 1 && b[0] > 1 then Err(MalformedMessage) else Ok((b[0], 1))
    else if limit == 1 then Err(MalformedMessage)
    else
      var (high, n) :- TakeVarint(b[1..], limit - 1);
      Ok((b[0] - 128 + 128 * high, n + 1))
  }

  lemma {:induction false} VarintRoundTrip(n: nat, limit: nat, tail: bytes)
    requires n < VarintBound(limit)
    ensures TakeVarint(PutVarint(n) + tail, limit) == Ok((n, |PutVarint(n)|))
  {
    if n >= 128 {
      VarintRoundTrip(n / 128, limit - 1, tail);
      assert (PutVarint(n) + tail)[1..] == PutVarint(n / 128) + tail;
    }
  }

  function Pow128(k: nat): (p: nat)
    ensures p > 0
  {
    if k == 0 then 1 else 128 * Pow128(k - 1)
  }

  /** Seven bits a byte, the least significant first, the top bit on all but the last
      byte, and no more bytes than that takes. */
  lemma {:induction false} VarintByte(n: nat, i: nat)
    requires i < |PutVarint(n)|
    ensures PutVarint(n)[i] % 128 == n / Pow128(i) % 128
    ensures PutVarint(n)[i] >= 128 <==> i < |PutVarint(n)| - 1
    ensures |PutVarint(n)| > 1 ==> n >= Pow128(|PutVarint(n)| - 1)
    ensures n < Pow128(|PutVarint(n)|)
  {
    if n >= 128 {
      assert PutVarint(n)[1..] == PutVarint(n / 128);
      VarintByte(n / 128, if i == 0 then 0 else i - 1);
      if i > 0 {
        DivideTwice(n, 128, Pow128(i - 1));
      }
    }
  }

  /** The low seven bits of the first `n` bytes are the digits of `v`, the least significant first. */
  predicate Digits(b: bytes, n: nat, v: nat)
    requires n <= |b|
  {
    v < Pow128(n) && forall i :: 0 <= i < n ==> v / Pow128(i) % 128 == b[i] % 128
  }

  /** Which bytes are a varint, and of which number: all but the last have the top bit,
      there are at most `limit` of them, and if that many, the last is 0 or 1. */
  lemma {:induction false} TakeVarintExact(b: bytes, limit: nat, n: nat)
    requires 0 < n <= |b|
    requires forall i :: 0 <= i < n - 1 ==> b[i] >= 128
    requires b[n - 1] < 128
    ensures TakeVarint(b, limit).Ok? <==> n < limit || (n == limit && b[n - 1] <= 1)
    ensures TakeVarint(b, limit).Ok? ==>
              TakeVarint(b, limit).value.1 == n && Digits(b, n, TakeVarint(b, limit).value.0)
  {
    hide Digits, VarintBound;
    if n == 1 {
      OneDigit(b);
    } else if limit > 1 {
      TakeVarintExact(b[1..], limit - 1, n - 1);
      if TakeVarint(b[1..], limit - 1).Ok? {
        MoreDigits(b, TakeVarint(b[1..], limit - 1).value.0, n);
      }
    }
  }

  lemma {:induction false} OneDigit(b: bytes)
    requires b != [] && b[0] < 128
    ensures Digits(b, 1, b[0])
  {
    assert Pow128(0) == 1 && Pow128(1) == 128;
  }

  lemma {:induction false} MoreDigits(b: bytes, high: nat, n: nat)
    requires 1 < n <= |b| && b[0] >= 128 && Digits(b[1..], n - 1, high)
    ensures Digits(b, n, b[0] - 128 + 128 * high)
  {
    var v := b[0] - 128 + 128 * high;
    assert v / 128 == high && v % 128 == b[0] - 128 == b[0] % 128;
    forall i | 0 <= i < n
      ensures v / Pow128(i) % 128 == b[i] % 128
    {
      if i > 0 {
        DivideTwice(v, 128, Pow128(i - 1));
        assert b[1..][i - 1] == b[i];
      }
    }
  }

  /** Without a last byte nothing is decoded. */
  lemma {:induction false} VarintUnended(b: bytes, limit: nat)
    requires forall i :: 0 <= i < |b| ==> b[i] >= 128
    ensures TakeVarint(b, limit) == Err(MalformedMessage)
  {
    if b != [] && limit > 1 {
      VarintUnended(b[1..], limit - 1);
    }
  }

  lemma {:induction false} VarintBound64()
    ensures VarintBound(10) == TWO_64
  {
    assert VarintBound(4) == 2 * 128 * 128 * 128;
    assert VarintBound(7) == 2 * 128 * 128 * 128 * 128 * 128 * 128;
  }

  lemma {:induction false} VarintLength(n: nat, limit: nat)
    requires n < VarintBound(limit)
    ensures |PutVarint(n)| <= limit
  {
    if n >= 128 {
      VarintLength(n / 128, limit - 1);
    }
  }

  // ---------- fields

  datatype Field =
    | Number(number: nat, value: uint64)
    | Text(number: nat, text: Payload)
    | Skipped

  /** One field from the front of a non-empty message, with its length. */
  function TakeField(b: bytes): (r: Result<(Field, nat)>)
    ensures r.Ok? ==> 0 < r.value.1 <= |b|
  {
    VarintBound64();
    var (tag, n) :- TakeVarint(b, 10);
    var number, wire, rest := tag / 8, tag % 8, b[n..];
    if number == 0 || number >= 0x2000_0000 then Err(MalformedMessage)
    else if wire == 0 then
      var (v, m) :- TakeVarint(rest, 10);
      Ok((Number(number, v), n + m))
    else if wire == 1 then
      if |rest| < 8 then Err(MalformedMessage) else Ok((Skipped, n + 8))
    else if wire == 2 then
      var (length, m) :- TakeVarint(rest, 10);
      if length > |rest| - m || length >= 0x8000_0000 then Err(MalformedMessage)
      else Ok((Text(number, rest[m..m + length]), n + m + length))
    else if wire == 5 then
      if |rest| < 4 then Err(MalformedMessage) else Ok((Skipped, n + 4))
    else Err(MalformedMessage)
  }

  function PutNumber(number: nat, value: uint64): bytes {
    PutVarint(8 * number) + PutVarint(value)
  }

  function PutText(number: nat, text: Payload): bytes {
    PutVarint(8 * number + 2) + PutVarint(|text|) + text
  }

  lemma {:induction false} TakePutNumber(number: nat, value: uint64, tail: bytes)
    requires 0 < number < 0x2000_0000
    ensures TakeField(PutNumber(number, value) + tail) == Ok((Number(number, value), |PutNumber(number, value)|))
  {
    VarintBound64();
    var b := PutNumber(number, value) + tail;
    assert b == PutVarint(8 * number) + (PutVarint(value) + tail);
    VarintRoundTrip(8 * number, 10, PutVarint(value) + tail);
    assert b[|PutVarint(8 * number)|..] == PutVarint(value) + tail;
    VarintRoundTrip(value, 10, tail);
  }

  lemma {:induction false} TakePutText(number: nat, text: Payload, tail: bytes)
    requires 0 < number < 0x2000_0000
    ensures TakeField(PutText(number, text) + tail) == Ok((Text(number, text), |PutText(number, text)|))
  {
    VarintBound64();
    var tag, size := PutVarint(8 * number + 2), PutVarint(|text|);
    var rest := size + (text + tail);
    assert PutText(number, text) + tail == tag + rest;
    VarintRoundTrip(8 * number + 2, 10, rest);
    VarintRoundTrip(|text|, 10, text + tail);
    TextAfterTag(number, text, tag, size, tail);
  }

  lemma {:induction false} TextAfterTag(number: nat, text: Payload, tag: bytes, size: bytes, tail: bytes)
    requires 0 < number < 0x2000_0000
    requires TakeVarint(tag + (size + (text + tail)), 10) == Ok((8 * number + 2, |tag|))
    requires TakeVarint(size + (text + tail), 10) == Ok((|text|, |size|))
    ensures TakeField(tag + (size + (text + tail))) == Ok((Text(number, text), |tag| + |size| + |text|))
  {
    var rest := size + (text + tail);
    assert (tag + rest)[|tag|..] == rest;
    assert rest[|size|..|size| + |text|] == text;
  }

  // ---------- Record

  function MarshalValue(r: Record): bytes { if r.value == [] then [] else PutText(1, r.value) }
  function MarshalOffset(r: Record): bytes { if r.offset == 0 then [] else PutNumber(2, r.offset) }
  function MarshalTerm(r: Record): bytes { if r.term == 0 then [] else PutNumber(3, r.term) }
  function MarshalKind(r: Record): bytes { if r.kind == 0 then [] else PutNumber(4, r.kind) }

  function Marshal(r: Record): bytes {
    MarshalValue(r) + (MarshalOffset(r) + (MarshalTerm(r) + MarshalKind(r)))
  }

  function SetField(r: Record, f: Field): Record {
    match f
    case Text(1, text) => r.(value := text)
    case Number(2, v) => r.(offset := v)
    case Number(3, v) => r.(term := v)
    case Number(4, v) => r.(kind := v % 0x1_0000_0000)
    case _ => r
  }

  /** Merges the message `b` into `r`. */
  function Merge(b: bytes, r: Record): Result<Record> {
    if b == [] then Ok(r)
    else
      var (f, n) :- TakeField(b);
      Merge(b[n..], SetField(r, f))
  }

  function Unmarshal(b: bytes): Result<Record> {
    Merge(b, DEFAULT)
  }

  lemma {:induction false} MergeNumber(number: nat, value: uint64, tail: bytes, r: Record)
    requires 0 < number < 0x2000_0000
    ensures Merge(PutNumber(number, value) + tail, r) == Merge(tail, SetField(r, Number(number, value)))
  {
    TakePutNumber(number, value, tail);
    var b := PutNumber(number, value) + tail;
    assert b[|PutNumber(number, value)|..] == tail;
  }

  lemma {:induction false} MergeText(number: nat, text: Payload, tail: bytes, r: Record)
    requires 0 < number < 0x2000_0000
    ensures Merge(PutText(number, text) + tail, r) == Merge(tail, SetField(r, Text(number, text)))
  {
    TakePutText(number, text, tail);
    var b := PutText(number, text) + tail;
    assert b[|PutText(number, text)|..] == tail;
  }

  function PutField(f: Field): bytes
    requires !f.Skipped?
  {
    if f.Text? then PutText(f.number, f.text) else PutNumber(f.number, f.value)
  }

  /** Field `f` as marshalled: omitted when `r` already holds its value. */
  predicate Optional(wire: bytes, f: Field, r: Record) {
    !f.Skipped? && 0 < f.number < 0x2000_0000 &&
    if wire == [] then SetField(r, f) == r else wire == PutField(f)
  }

  lemma {:induction false} MergeOptional(wire: bytes, f: Field, tail: bytes, r: Record)
    requires Optional(wire, f, r)
    ensures Merge(wire + tail, r) == Merge(tail, SetField(r, f))
  {
    if wire == [] {
      assert wire + tail == tail;
    } else if f.Text? {
      MergeText(f.number, f.text, tail, r);
    } else {
      MergeNumber(f.number, f.value, tail, r);
    }
  }

  lemma {:induction false} MergeTwo(w: bytes, f: Field, w': bytes, f': Field, tail: bytes, r: Record)
    requires Optional(w, f, r) && Optional(w', f', SetField(r, f))
    ensures Merge(w + (w' + tail), r) == Merge(tail, SetField(SetField(r, f), f'))
  {
    MergeOptional(w, f, w' + tail, r);
    MergeOptional(w', f', tail, SetField(r, f));
  }

  /** Every record, default fields or not, survives the wire. */
  lemma {:induction false} UnmarshalMarshal(r: Record)
    ensures Unmarshal(Marshal(r)) == Ok(r)
  {
    hide TakeField, PutVarint;
    var r2 := DEFAULT.(value := r.value, offset := r.offset);
    calc {
      Unmarshal(Marshal(r));
      Merge(MarshalValue(r) + (MarshalOffset(r) + (MarshalTerm(r) + MarshalKind(r))), DEFAULT);
      { MergeTwo(MarshalValue(r), Text(1, r.value), MarshalOffset(r), Number(2, r.offset),
                 MarshalTerm(r) + MarshalKind(r), DEFAULT); }
      Merge(MarshalTerm(r) + MarshalKind(r), r2);
      { assert MarshalKind(r) + [] == MarshalKind(r); }
      Merge(MarshalTerm(r) + (MarshalKind(r) + []), r2);
      { MergeTwo(MarshalTerm(r), Number(3, r.term), MarshalKind(r), Number(4, r.kind), [], r2); }
      Merge([], r);
      Ok(r);
    }
  }

  /** The wire form is empty for the default record alone, and fits a Go slice. */
  lemma {:induction false} MarshalSize(r: Record)
    ensures Marshal(r) == [] <==> r == DEFAULT
    ensures |Marshal(r)| < 0x1_0000_0000
  {
    VarintBound64();
    VarintLength(|r.value|, 10);
    VarintLength(r.offset, 10);
    VarintLength(r.term, 10);
    VarintLength(r.kind, 10);
  }

  // ---------- ProduceRequest

  function MarshalRequest(r: Record): bytes
    requires |Marshal(r)| < 0x8000_0000
  {
    PutText(1, Marshal(r))
  }

  /** The record is absent when no field 1 occurs: Go leaves `req.Record` nil. */
  function MergeRequest(b: bytes, acc: Option<Record>): Result<Option<Record>> {
    if b == [] then Ok(acc)
    else
      var (f, n) :- TakeField(b);
      if f.Text? && f.number == 1 then
        var r :- Merge(f.text, if acc.Some? then acc.value else DEFAULT);
        MergeRequest(b[n..], Some(r))
      else MergeRequest(b[n..], acc)
  }

  function UnmarshalRequest(b: bytes): Result<Option<Record>> {
    MergeRequest(b, None)
  }

  lemma {:induction false} UnmarshalMarshalRequest(r: Record)
    requires |Marshal(r)| < 0x8000_0000
    ensures UnmarshalRequest(MarshalRequest(r)) == Ok(Some(r))
  {
    var b := MarshalRequest(r);
    TakePutText(1, Marshal(r), []);
    assert b + [] == b;
    UnmarshalMarshal(r);
    assert b[|b|..] == [];
    assert MergeRequest([], Some(r)) == Ok(Some(r));
  }

  // ---------- the wire form itself

  /** The bytes of a record: tag 0x0A before the length and the value, 0x10, 0x18 and
      0x20 before the three numbers, and nothing for a default. */
  lemma {:induction false} WireForm(r: Record)
    ensures Marshal(r) ==
            (if r.value == [] then [] else [0x0A] + PutVarint(|r.value|) + r.value)
            + ((if r.offset == 0 then [] else [0x10] + PutVarint(r.offset))
               + ((if r.term == 0 then [] else [0x18] + PutVarint(r.term))
                  + (if r.kind == 0 then [] else [0x20] + PutVarint(r.kind))))
  {
    OneByte();
  }

  lemma {:induction false} OneByte()
    ensures PutVarint(10) == [0x0A] && PutVarint(16) == [0x10] && PutVarint(24) == [0x18] && PutVarint(32) == [0x20]
  {
  }

  /** A request is tag 0x0A before the length and the record. */
  lemma {:induction false} RequestBytes(r: Record)
    requires |Marshal(r)| < 0x8000_0000
    ensures MarshalRequest(r) == [0x0A] + PutVarint(|Marshal(r)|) + Marshal(r)
  {
    hide Marshal;
    OneByte();
  }

  /** What each tagged field decodes to, before any tail and onto any record. */
  lemma {:induction false} TagsDecode(value: Payload, n: uint64, tail: bytes, r: Record)
    ensures Merge([0x0A] + PutVarint(|value|) + value + tail, r) == Merge(tail, r.(value := value))
    ensures Merge([0x10] + PutVarint(n) + tail, r) == Merge(tail, r.(offset := n))
    ensures Merge([0x18] + PutVarint(n) + tail, r) == Merge(tail, r.(term := n))
    ensures Merge([0x20] + PutVarint(n) + tail, r) == Merge(tail, r.(kind := n % 0x1_0000_0000))
  {
    hide Merge;
    OneByte();
    MergeText(1, value, tail, r);
    MergeNumber(2, n, tail, r);
    MergeNumber(3, n, tail, r);
    MergeNumber(4, n, tail, r);
  }

  /** Fields that a record does not have are skipped, as are its own under another wire type. */
  lemma {:induction false} UnknownSkipped(number: nat, n: uint64, text: Payload, eight: bytes, four: bytes,
                                          tail: bytes, r: Record)
    requires 0 < number < 0x2000_0000 && |eight| == 8 && |four| == 4
    ensures !(2 <= number <= 4) ==> Merge(PutVarint(8 * number) + PutVarint(n) + tail, r) == Merge(tail, r)
    ensures Merge(PutVarint(8 * number + 1) + eight + tail, r) == Merge(tail, r)
    ensures number != 1 ==> Merge(PutVarint(8 * number + 2) + PutVarint(|text|) + text + tail, r) == Merge(tail, r)
    ensures Merge(PutVarint(8 * number + 5) + four + tail, r) == Merge(tail, r)
  {
    hide Merge;
    MergeNumber(number, n, tail, r);
    MergeText(number, text, tail, r);
    FixedSkipped(number, 1, eight, tail, r);
    FixedSkipped(number, 5, four, tail, r);
  }

  /** A tag with field number 0 or too large a one, or with another wire type, is refused. */
  lemma {:induction false} TagRefused(number: nat, wire: nat, tail: bytes, r: Record)
    requires wire < 8 && 8 * number + wire < TWO_64
    requires number == 0 || number >= 0x2000_0000 || wire in {3, 4, 6, 7}
    ensures Merge(PutVarint(8 * number + wire) + tail, r) == Err(MalformedMessage)
  {
    hide PutVarint, TakeVarint;
    VarintBound64();
    VarintRoundTrip(8 * number + wire, 10, tail);
  }

  /** A length that reaches beyond the message is refused. */
  lemma {:induction false} TextRefused(number: nat, length: uint64, tail: bytes, r: Record)
    requires 0 < number < 0x2000_0000 && |tail| < length
    ensures Merge(PutVarint(8 * number + 2) + PutVarint(length) + tail, r) == Err(MalformedMessage)
  {
    hide PutVarint, TakeVarint;
    VarintBound64();
    var tag, size := PutVarint(8 * number + 2), PutVarint(length);
    var b := tag + size + tail;
    assert b == tag + (size + tail);
    VarintRoundTrip(8 * number + 2, 10, size + tail);
    VarintRoundTrip(length, 10, tail);
    assert b[|tag|..] == size + tail;
  }

  /** In a request each field 1 is merged into the record, all others are skipped. */
  lemma {:induction false} RequestFields(text: Payload, number: nat, n: uint64, tail: bytes, acc: Option<Record>)
    requires 0 < number < 0x2000_0000
    ensures MergeRequest([0x0A] + PutVarint(|text|) + text + tail, acc) ==
            match Merge(text, if acc.Some? then acc.value else DEFAULT)
            case Ok(r) => MergeRequest(tail, Some(r))
            case Err(e) => Err(e)
    ensures number != 1 ==>
              MergeRequest(PutVarint(8 * number + 2) + PutVarint(|text|) + text + tail, acc) == MergeRequest(tail, acc)
    ensures MergeRequest(PutVarint(8 * number) + PutVarint(n) + tail, acc) == MergeRequest(tail, acc)
  {
    hide TakeField, PutVarint, Merge;
    OneByte();
    TakePutText(1, text, tail);
    TakePutText(number, text, tail);
    TakePutNumber(number, n, tail);
    AfterField(PutText(1, text), tail);
    AfterField(PutText(number, text), tail);
    AfterField(PutNumber(number, n), tail);
  }

  lemma {:induction false} AfterField(f: bytes, tail: bytes)
    ensures (f + tail)[|f|..] == tail
  {
  }

  lemma {:induction false} FixedSkipped(number: nat, wire: nat, fixed: bytes, tail: bytes, r: Record)
    requires 0 < number < 0x2000_0000 && ((wire == 1 && |fixed| == 8) || (wire == 5 && |fixed| == 4))
    ensures Merge(PutVarint(8 * number + wire) + fixed + tail, r) == Merge(tail, r)
  {
    hide PutVarint, TakeVarint;
    var tag := PutVarint(8 * number + wire);
    var b := tag + fixed + tail;
    VarintBound64();
    assert b == tag + (fixed + tail);
    VarintRoundTrip(8 * number + wire, 10, fixed + tail);
    assert b[|tag|..] == fixed + tail && b[|tag| + |fixed|..] == tail;
    assert TakeField(b) == Ok((Skipped, |tag| + |fixed|));
  }
}
