/**
 NDEF records and messages: the encoder, the decoder and the exact set of messages on which the
 decoder undoes the encoder. Record layout: section 3.2 of NFC Forum NDEF 1.0.
 */
module Ndef {
  import opened Bytes

  const MAX_NDEF_RECORDS := 4
  const LONG_TYPE_UNIT := 0x1000000

  /** A record; deep copies in the source make it a value. */
  datatype Record = Record(tnf: Byte, typ: seq<Byte>, id: seq<Byte>, payload: seq<Byte>)

  /** What decoding memory can yield: records, or a read outside the memory. */
  datatype Decoded = Decoded(records: seq<Record>) | Fault

  /** One record taken off the front of memory: its bytes and whether it carries the ME flag. */
  datatype Step = Step(record: Record, size: nat, last: bool) | Overrun

  // ----- encoding

  function RecordSize(r: Record): nat {
    2 + (if |r.payload| > 0xFF then 4 else 1) + (if r.id != [] then 1 else 0)
    + |r.typ| + |r.payload| + |r.id|
  }

  /**
   The header byte: the TNF value with the MB, ME, SR and IL flags or-ed into it, bit by bit so
   that a TNF above 7 keeps the flags it already carries.
   */
  function TnfByte(r: Record, first: bool, last: bool): Byte {
    (if first || HasBit(r.tnf, 0x80) then 0x80 else 0)
    + (if last || HasBit(r.tnf, 0x40) then 0x40 else 0)
    + (if HasBit(r.tnf, 0x20) then 0x20 else 0)
    + (if |r.payload| <= 0xFF || HasBit(r.tnf, 0x10) then 0x10 else 0)
    + (if r.id != [] || HasBit(r.tnf, 0x08) then 0x08 else 0)
    + r.tnf % 8
  }

  /** One length byte, or four of which only the low two are ever filled. */
  function LengthField(n: nat): seq<Byte> {
    if n <= 0xFF then [n] else [0, 0, (n / 256) % 256, n % 256]
  }

  function Header(r: Record, first: bool, last: bool): seq<Byte> {
    [TnfByte(r, first, last), |r.typ| % 256] + LengthField(|r.payload|)
    + (if r.id != [] then [|r.id| % 256] else [])
  }

  function EncodeRecord(r: Record, first: bool, last: bool): (s: seq<Byte>)
    ensures |s| == RecordSize(r)
  {
    Header(r, first, last) + r.typ + r.id + r.payload
  }

  /** The last records of a message, `first` telling whether they are the whole of it. */
  function EncodeTail(rs: seq<Record>, first: bool): seq<Byte> {
    if rs == [] then [] else EncodeRecord(rs[0], first, |rs| == 1) + EncodeTail(rs[1..], false)
  }

  function EncodeMessage(rs: seq<Record>): seq<Byte> {
    EncodeTail(rs, true)
  }

  function MessageSize(rs: seq<Record>): nat {
    if rs == [] then 0 else RecordSize(rs[0]) + MessageSize(rs[1..])
  }

  // ----- decoding

  /** `memcpy` of `n` bytes reads nothing when `n` is zero, wherever the pointer is. */
  predicate Readable(d: seq<Byte>, at: nat, n: nat) {
    n == 0 || at + n <= |d|
  }

  function Copy(d: seq<Byte>, at: nat, n: nat): (s: seq<Byte>)
    requires Readable(d, at, n)
    ensures |s| == n
  {
    if n == 0 then [] else d[at..at + n]
  }

  /** What the header of a record says: where its fields lie and how long they are. */
  datatype Shape = Shape(tnf: Byte, header: nat, typeLength: nat, idLength: nat, payloadLength: nat, last: bool)

  /** How many bytes the decoder reads to learn the shape of the record at the start of `d`. */
  function HeaderReads(flags: Byte): nat {
    if HasBit(flags, 0x08) then (if HasBit(flags, 0x10) then 4 else 7)
    else if HasBit(flags, 0x10) then 3 else 5
  }

  /** In the long form the length is read one byte early, from the type-length byte on. */
  function ReadShape(d: seq<Byte>): Shape
    requires d != [] && HeaderReads(d[0]) <= |d|
  {
    var short, hasId := HasBit(d[0], 0x10), HasBit(d[0], 0x08);
    var header := (if short then 3 else 6) + (if hasId then 1 else 0);
    Shape(d[0] % 8, header, d[1], if hasId then d[header - 1] else 0,
          if short then d[2] else Word32(d[1], d[2], d[3], d[4]), HasBit(d[0], 0x40))
  }

  function CopyFields(d: seq<Byte>, h: Shape): (s: Step)
    ensures s.Step? ==> s.size >= h.header
  {
    var atId := h.header + h.typeLength;
    var atPayload := atId + h.idLength;
    if !Readable(d, h.header, h.typeLength) || !Readable(d, atId, h.idLength) || !Readable(d, atPayload, h.payloadLength)
    then Overrun
    else Step(Record(h.tnf, Copy(d, h.header, h.typeLength), Copy(d, atId, h.idLength),
                     Copy(d, atPayload, h.payloadLength)),
              atPayload + h.payloadLength, h.last)
  }

  function DecodeRecord(d: seq<Byte>): (s: Step)
    ensures s.Step? ==> s.size >= 3
  {
    if d == [] || |d| < HeaderReads(d[0]) then Overrun else CopyFields(d, ReadShape(d))
  }

  /** Appending stops, silently, at the capacity of the message. */
  function AddTo(rs: seq<Record>, r: Record): seq<Record> {
    if |rs| < MAX_NDEF_RECORDS then rs + [r] else rs
  }

  /** Memory from `n` on; nothing is readable past its end. */
  function Skip(d: seq<Byte>, n: nat): seq<Byte> {
    if n <= |d| then d[n..] else []
  }

  /**
   The decoding loop: `d` is the memory from the read index on and `left` the distance from the
   index to `numBytes`, which the loop condition lets reach zero.
   */
  function DecodeFrom(d: seq<Byte>, left: int, found: seq<Record>): Decoded
    decreases left
  {
    if left < 0 then Decoded(found)
    else
      match DecodeRecord(d)
      case Overrun => Fault
      case Step(r, size, last) =>
        if last then Decoded(AddTo(found, r)) else DecodeFrom(Skip(d, size), left - size, AddTo(found, r))
  }

  /** Decode `numBytes` bytes at the start of a memory of which all of `mem` is readable. */
  function Decode(mem: seq<Byte>, numBytes: nat): Decoded {
    DecodeFrom(mem, numBytes, [])
  }

  // ----- the round trip

  /**
   The records that survive encoding and decoding. The second disjunct on the payload is the one
   length at which the misplaced length field happens to read back correctly.
   */
  predicate Codable(r: Record) {
    && r.tnf < 8
    && |r.typ| <= 255
    && |r.id| <= 255
    && (|r.payload| <= 255 || |r.payload| == |r.typ| * LONG_TYPE_UNIT)
  }

  function Flag(b: bool, mask: nat): nat {
    if b then mask else 0
  }

  lemma TnfByteValue(r: Record, first: bool, last: bool)
    requires r.tnf < 8
    ensures TnfByte(r, first, last) ==
            Flag(first, 0x80) + Flag(last, 0x40) + Flag(|r.payload| <= 0xFF, 0x10) + Flag(r.id != [], 0x08) + r.tnf
  {
    var t := r.tnf;
    assert !HasBit(t, 0x80) && !HasBit(t, 0x40) && !HasBit(t, 0x20) && !HasBit(t, 0x10) && !HasBit(t, 0x08);
  }

  lemma FlagArithmetic(mb: bool, me: bool, sr: bool, il: bool, tnf: Byte, b: Byte)
    requires tnf < 8 && b == Flag(mb, 0x80) + Flag(me, 0x40) + Flag(sr, 0x10) + Flag(il, 0x08) + tnf
    ensures b % 128 == b - Flag(mb, 0x80)
    ensures b % 32 == b - Flag(mb, 0x80) - Flag(me, 0x40)
    ensures b % 16 == Flag(il, 0x08) + tnf
    ensures b % 8 == tnf
  {
    assert b / 128 == Flag(mb, 1);
    assert b / 32 == Flag(mb, 4) + Flag(me, 2);
    assert b / 16 == Flag(mb, 8) + Flag(me, 4) + Flag(sr, 1);
    assert b / 8 == Flag(mb, 16) + Flag(me, 8) + Flag(sr, 2) + Flag(il, 1);
  }

  /** The flags of the header byte are the four facts it is built from. */
  lemma FlagsOf(r: Record, first: bool, last: bool)
    requires r.tnf < 8
    ensures var b := TnfByte(r, first, last);
            && b % 8 == r.tnf
            && HasBit(b, 0x80) == first && HasBit(b, 0x40) == last
            && HasBit(b, 0x10) == (|r.payload| <= 0xFF) && HasBit(b, 0x8) == (r.id != [])
  {
    hide TnfByte;
    TnfByteValue(r, first, last);
    FlagArithmetic(first, last, |r.payload| <= 0xFF, r.id != [], r.tnf, TnfByte(r, first, last));
  }

  /** The header of a record with a three-bit TNF, read back from the front of memory. */
  lemma ReadShapeOfHeader(r: Record, first: bool, last: bool, tail: seq<Byte>)
    requires r.tnf < 8
    ensures var h := Header(r, first, last);
            && HeaderReads(h[0]) <= |h|
            && ReadShape(h + tail) ==
               Shape(r.tnf, |h|, |r.typ| % 256, |r.id| % 256,
                     if |r.payload| <= 0xFF then |r.payload|
                     else Word32(|r.typ| % 256, 0, 0, (|r.payload| / 256) % 256), last)
  {
    var h := Header(r, first, last);
    FlagsOf(r, first, last);
    assert forall j :: 0 <= j < |h| ==> (h + tail)[j] == h[j];
  }

  lemma CopyFieldsOf(head: seq<Byte>, r: Record, last: bool, rest: seq<Byte>)
    ensures CopyFields(head + r.typ + r.id + r.payload + rest,
                       Shape(r.tnf, |head|, |r.typ|, |r.id|, |r.payload|, last))
         == Step(r, |head| + |r.typ| + |r.id| + |r.payload|, last)
  {
    var d := head + r.typ + r.id + r.payload + rest;
    var i := |head| + |r.typ|;
    assert d[|head|..i] == r.typ;
    assert d[i..i + |r.id|] == r.id;
    assert d[i + |r.id|..i + |r.id| + |r.payload|] == r.payload;
  }

  lemma DecodeByShape(d: seq<Byte>, h: Shape)
    requires d != [] && HeaderReads(d[0]) <= |d| && ReadShape(d) == h
    ensures DecodeRecord(d) == CopyFields(d, h)
  {
  }

  lemma CodableBounds(r: Record)
    requires Codable(r)
    ensures r.tnf < 8 && |r.typ| % 256 == |r.typ| && |r.id| % 256 == |r.id|
    ensures |r.payload| > 0xFF ==> |r.payload| == Word32(|r.typ| % 256, 0, 0, (|r.payload| / 256) % 256)
  {
    if |r.payload| > 0xFF {
      assert |r.payload| / 256 == |r.typ| * 0x10000;
    }
  }

  lemma Regroup(h: seq<Byte>, a: seq<Byte>, b: seq<Byte>, c: seq<Byte>, rest: seq<Byte>)
    ensures h + a + b + c + rest == h + (a + b + c + rest)
  {
  }

  /** An encoded record in memory, as the header followed by the rest of memory. */
  lemma EncodedRecordInMemory(r: Record, first: bool, last: bool, rest: seq<Byte>)
    ensures var h := Header(r, first, last);
            && |h| >= 3 && RecordSize(r) == |h| + |r.typ| + |r.id| + |r.payload|
            && EncodeRecord(r, first, last) + rest == h + r.typ + r.id + r.payload + rest
            && EncodeRecord(r, first, last) + rest == h + (r.typ + r.id + r.payload + rest)
            && (EncodeRecord(r, first, last) + rest)[0] == h[0]
  {
    hide TnfByte, HasBit;
    Regroup(Header(r, first, last), r.typ, r.id, r.payload, rest);
  }

  /** A codable record is read back whole, and the decoder steps exactly over its bytes. */
  lemma RecordRoundTrip(r: Record, first: bool, last: bool, rest: seq<Byte>)
    requires Codable(r)
    ensures DecodeRecord(EncodeRecord(r, first, last) + rest) == Step(r, RecordSize(r), last)
  {
    hide *;
    var d, h := EncodeRecord(r, first, last) + rest, Header(r, first, last);
    EncodedRecordInMemory(r, first, last, rest);
    CodableBounds(r);
    ReadShapeOfHeader(r, first, last, r.typ + r.id + r.payload + rest);
    CopyFieldsOf(h, r, last, rest);
    DecodeByShape(d, Shape(r.tnf, |h|, |r.typ|, |r.id|, |r.payload|, last));
  }

  /** No other record is read back. */
  lemma RecordRoundTripNecessary(r: Record, first: bool, last: bool, rest: seq<Byte>)
    requires var s := DecodeRecord(EncodeRecord(r, first, last) + rest); s.Step? && s.record == r
    ensures Codable(r)
  {
    hide HasBit, TnfByte, LengthField, ReadShape, HeaderReads, Header, EncodeRecord, RecordSize, CopyFields;
    var d := EncodeRecord(r, first, last) + rest;
    DecodedTnfIsSmall(d);
    EncodedRecordInMemory(r, first, last, rest);
    ReadShapeOfHeader(r, first, last, r.typ + r.id + r.payload + rest);
    CopyFieldsLengths(d, ReadShape(d));
    if |r.payload| > 0xFF {
      LongLengthFixedPoint(|r.payload|, |r.typ|);
    }
  }

  lemma CopyFieldsLengths(d: seq<Byte>, h: Shape)
    ensures var s := CopyFields(d, h);
            s.Step? ==> |s.record.typ| == h.typeLength && |s.record.id| == h.idLength && |s.record.payload| == h.payloadLength
  {
  }

  lemma DecodedTnfIsSmall(d: seq<Byte>)
    ensures DecodeRecord(d).Step? ==> DecodeRecord(d).record.tnf < 8
  {
  }

  lemma LongLengthFixedPoint(p: nat, t: nat)
    requires t < 256 && p == Word32(t, 0, 0, (p / 256) % 256)
    ensures p == t * LONG_TYPE_UNIT
  {
    assert p / 256 == t * 0x10000;
  }

  predicate AllCodable(rs: seq<Record>) {
    forall r :: r in rs ==> Codable(r)
  }

  /** The decoder at the last records of an encoded message, having found the earlier ones. */
  lemma {:induction false} TailRoundTrip(found: seq<Record>, rs: seq<Record>, first: bool, rest: seq<Byte>, left: int)
    requires rs != [] && |found| + |rs| <= MAX_NDEF_RECORDS
    requires left >= |EncodeTail(rs, first)|
    ensures DecodeFrom(EncodeTail(rs, first) + rest, left, found) == Decoded(found + rs) <==> AllCodable(rs)
    decreases rs
  {
    hide DecodeRecord, EncodeRecord, Codable, RecordSize;
    var r, last := rs[0], |rs| == 1;
    var bytes, tail := EncodeRecord(r, first, last), EncodeTail(rs[1..], false) + rest;
    assert EncodeTail(rs, first) + rest == bytes + tail;
    var s := DecodeRecord(bytes + tail);
    assert rs == [r] + rs[1..];
    if s.Overrun? || s.record != r {
      if Codable(r) { RecordRoundTrip(r, first, last, tail); }
      if s.Step? {
        FoundIsPrefix(Skip(bytes + tail, s.size), left - s.size, found + [s.record]);
        assert (found + rs)[|found|] == r;
      }
    } else {
      RecordRoundTripNecessary(r, first, last, tail);
      RecordRoundTrip(r, first, last, tail);
      if !last {
        TailRoundTrip(found + [r], rs[1..], false, rest, left - s.size);
        assert found + [r] + rs[1..] == found + rs;
        assert Skip(bytes + tail, s.size) == tail;
      }
    }
  }

  /** Decoding never loses or changes what it has already found. */
  lemma {:induction false} FoundIsPrefix(d: seq<Byte>, left: int, found: seq<Record>)
    ensures var r := DecodeFrom(d, left, found); r.Decoded? ==> found <= r.records
    decreases left
  {
    hide DecodeRecord;
    if left >= 0 {
      var s := DecodeRecord(d);
      if s.Step? && !s.last {
        FoundIsPrefix(Skip(d, s.size), left - s.size, AddTo(found, s.record));
      }
    }
  }

  /**
   For every message that the class can hold, followed in memory by anything: decoding its
   encoding returns it exactly when it has a record and all of them are codable.
   */
  lemma RoundTrip(rs: seq<Record>, rest: seq<Byte>, numBytes: nat)
    requires |rs| <= MAX_NDEF_RECORDS
    requires numBytes >= |EncodeMessage(rs)|
    ensures Decode(EncodeMessage(rs) + rest, numBytes) == Decoded(rs) <==> rs != [] && AllCodable(rs)
  {
    hide DecodeRecord, EncodeTail, AllCodable;
    if rs == [] {
      DecodesSomething(EncodeMessage(rs) + rest, numBytes);
    } else {
      TailRoundTrip([], rs, true, rest, numBytes);
      assert [] + rs == rs;
    }
  }

  /** The loop runs at least once, even for zero bytes, so the empty message is never returned. */
  lemma DecodesSomething(mem: seq<Byte>, numBytes: nat)
    ensures var d := Decode(mem, numBytes); d.Decoded? ==> d.records != []
  {
    hide DecodeRecord;
    var s := DecodeRecord(mem);
    if s.Step? && !s.last {
      FoundIsPrefix(Skip(mem, s.size), numBytes - s.size, AddTo([], s.record));
    }
  }

  /** A 256-byte payload with no type comes back as one byte. */
  lemma LongPayloadIsLost(payload: seq<Byte>, rest: seq<Byte>)
    requires |payload| == 256
    ensures var r := Record(5, [], [], payload);
            DecodeRecord(EncodeRecord(r, true, true) + rest) == Step(r.(payload := payload[..1]), 7, true)
  {
    hide HasBit, TnfByte, ReadShape, RecordSize, CopyFields;
    var r := Record(5, [], [], payload);
    var h := Header(r, true, true);
    var d := EncodeRecord(r, true, true) + rest;
    assert d == h + (payload + rest) && d[0] == h[0];
    ReadShapeOfHeader(r, true, true, payload + rest);
    var lost := r.(payload := payload[..1]);
    assert d == h + lost.typ + lost.id + lost.payload + (payload[1..] + rest);
    CopyFieldsOf(h, lost, true, payload[1..] + rest);
  }

  // ----- sizes and flags over a whole message

  /** Flags are or-ed into the TNF byte: those that a TNF above 7 already carries stay set. */
  lemma TnfByteBits(r: Record, first: bool, last: bool)
    ensures var b := TnfByte(r, first, last);
            && b % 8 == r.tnf % 8
            && (HasBit(b, 0x80) <==> first || HasBit(r.tnf, 0x80))
            && (HasBit(b, 0x40) <==> last || HasBit(r.tnf, 0x40))
            && (HasBit(b, 0x20) <==> HasBit(r.tnf, 0x20))
            && (HasBit(b, 0x10) <==> |r.payload| <= 0xFF || HasBit(r.tnf, 0x10))
            && (HasBit(b, 0x08) <==> r.id != [] || HasBit(r.tnf, 0x08))
  {
    var mb, me, cf := first || HasBit(r.tnf, 0x80), last || HasBit(r.tnf, 0x40), HasBit(r.tnf, 0x20);
    var sr, il := |r.payload| <= 0xFF || HasBit(r.tnf, 0x10), r.id != [] || HasBit(r.tnf, 0x08);
    FiveFlags(mb, me, cf, sr, il, r.tnf % 8, TnfByte(r, first, last));
  }

  lemma FiveFlags(mb: bool, me: bool, cf: bool, sr: bool, il: bool, tnf: Byte, b: Byte)
    requires tnf < 8 && b == Flag(mb, 0x80) + Flag(me, 0x40) + Flag(cf, 0x20) + Flag(sr, 0x10) + Flag(il, 0x08) + tnf
    ensures b % 8 == tnf && HasBit(b, 0x80) == mb && HasBit(b, 0x40) == me && HasBit(b, 0x20) == cf
    ensures HasBit(b, 0x10) == sr && HasBit(b, 0x08) == il
  {
    var low: int := b - Flag(mb, 0x80) - Flag(me, 0x40) - Flag(cf, 0x20);
    assert 0 <= low < 32;
    LowBits(mb, me, cf, low, b);
    assert low % 16 == low - Flag(sr, 0x10);
  }

  lemma LowBits(mb: bool, me: bool, cf: bool, low: int, b: Byte)
    requires 0 <= low < 32 && b == Flag(mb, 0x80) + Flag(me, 0x40) + Flag(cf, 0x20) + low
    ensures b % 128 == Flag(me, 0x40) + Flag(cf, 0x20) + low && b % 64 == Flag(cf, 0x20) + low && b % 32 == low
    ensures b % 16 == low % 16 && b % 8 == low % 8
  {
  }

  /** A record byte by byte, as section 3.2 of NDEF 1.0 lays it out. */
  lemma RecordBytes(r: Record, first: bool, last: bool)
    requires r.tnf < 8 && |r.typ| <= 255 && |r.id| <= 255 && |r.payload| <= 0xFFFF
    ensures var flags := (if first then 128 else 0) + (if last then 64 else 0) + (if |r.payload| <= 255 then 16 else 0)
                         + (if r.id != [] then 8 else 0) + r.tnf;
            EncodeRecord(r, first, last) ==
            [flags, |r.typ|] + (if |r.payload| <= 255 then [|r.payload|] else [0, 0, |r.payload| / 256, |r.payload| % 256])
            + (if r.id != [] then [|r.id|] else []) + r.typ + r.id + r.payload
  {
    hide TnfByte;
    TnfByteValue(r, first, last);
    assert |r.payload| / 256 % 256 == |r.payload| / 256;
  }

  /** Of a message with more records than the class holds, the first ones are kept. */
  lemma LongMessageKeepsFour(rs: seq<Record>, rest: seq<Byte>, numBytes: nat)
    requires AllCodable(rs) && |rs| > MAX_NDEF_RECORDS && numBytes >= |EncodeMessage(rs)|
    ensures Decode(EncodeMessage(rs) + rest, numBytes) == Decoded(rs[..MAX_NDEF_RECORDS])
  {
    assert [] + rs == rs;
    LongTail([], rs, true, rest, numBytes);
  }

  lemma {:induction false} LongTail(found: seq<Record>, rs: seq<Record>, first: bool, rest: seq<Byte>, left: int)
    requires rs != [] && AllCodable(rs) && |found| <= MAX_NDEF_RECORDS && left >= |EncodeTail(rs, first)|
    ensures DecodeFrom(EncodeTail(rs, first) + rest, left, found) == Decoded(Kept(found + rs))
    decreases rs
  {
    hide EncodeRecord, DecodeRecord, Codable, RecordSize;
    var r, last := rs[0], |rs| == 1;
    var bytes, tail := EncodeRecord(r, first, last), EncodeTail(rs[1..], false) + rest;
    assert EncodeTail(rs, first) + rest == bytes + tail;
    RecordRoundTrip(r, first, last, tail);
    AddKeeps(found, r, rs[1..]);
    assert found + rs == found + [r] + rs[1..];
    if last {
      assert rs[1..] == [];
    } else {
      assert Skip(bytes + tail, |bytes|) == tail;
      LongTail(AddTo(found, r), rs[1..], false, rest, left - |bytes|);
    }
  }

  lemma AddKeeps(found: seq<Record>, r: Record, more: seq<Record>)
    requires |found| <= MAX_NDEF_RECORDS
    ensures |AddTo(found, r)| <= MAX_NDEF_RECORDS && AddTo(found, r) == Kept(found + [r])
    ensures Kept(AddTo(found, r) + more) == Kept(found + [r] + more)
    ensures more == [] ==> found + [r] + more == found + [r]
  {
  }

  /** As many records as the class holds. */
  function Kept(rs: seq<Record>): seq<Record> {
    if |rs| <= MAX_NDEF_RECORDS then rs else rs[..MAX_NDEF_RECORDS]
  }

  lemma {:induction false} EncodedLength(rs: seq<Record>, first: bool)
    ensures |EncodeTail(rs, first)| == MessageSize(rs)
  {
    hide EncodeRecord, RecordSize;
    if rs != [] {
      EncodedLength(rs[1..], false);
    }
  }

  /** The offset of record `k` in the encoded message, with what is encoded from there on. */
  lemma {:induction false} EncodedFrom(rs: seq<Record>, first: bool, k: nat)
    requires k <= |rs|
    ensures var all := EncodeTail(rs, first);
            && MessageSize(rs[..k]) <= |all|
            && all[MessageSize(rs[..k])..] == EncodeTail(rs[k..], first && k == 0)
  {
    hide EncodeRecord, RecordSize;
    if k == 0 {
      assert rs[0..] == rs;
    } else {
      EncodedFrom(rs[1..], false, k - 1);
      assert rs[..k][1..] == rs[1..][..k - 1];
      assert rs[1..][k - 1..] == rs[k..];
      var bytes := EncodeRecord(rs[0], first, |rs| == 1);
      DropPrefix(bytes, EncodeTail(rs[1..], false), MessageSize(rs[1..][..k - 1]));
    }
  }

  lemma DropPrefix(a: seq<Byte>, b: seq<Byte>, n: nat)
    requires n <= |b|
    ensures (a + b)[|a| + n..] == b[n..]
  {
  }

  /** Only the first record begins the message and only the last one ends it. */
  lemma MarkersBracketTheMessage(rs: seq<Record>, k: nat)
    requires k < |rs| && rs[k].tnf < 8
    ensures MessageSize(rs[..k]) < |EncodeMessage(rs)|
    ensures var b := EncodeMessage(rs)[MessageSize(rs[..k])];
            (HasBit(b, 0x80) <==> k == 0) && (HasBit(b, 0x40) <==> k == |rs| - 1)
  {
    hide HasBit, TnfByte, LengthField, MessageSize;
    EncodedFrom(rs, true, k);
    FlagsOf(rs[k], k == 0, k + 1 == |rs|);
    var all, at := EncodeMessage(rs), MessageSize(rs[..k]);
    assert all[at..][0] == TnfByte(rs[k], k == 0, k + 1 == |rs|);
    assert all[at] == all[at..][0];
  }

  // ----- the operations as the source runs them

  /** The decoding constructor: its loop, with the read index. */
  method DecodeMessage(mem: seq<Byte>, numBytes: nat) returns (d: Decoded)
    ensures d == Decode(mem, numBytes)
    ensures d.Decoded? ==> 1 <= |d.records| <= MAX_NDEF_RECORDS
  {
    hide DecodeRecord;
    DecodesSomething(mem, numBytes);
    var index, records: seq<Record> := 0, [];
    while index <= numBytes
      invariant |records| <= MAX_NDEF_RECORDS
      invariant Decode(mem, numBytes) == DecodeFrom(Skip(mem, index), numBytes - index, records)
      decreases numBytes - index
    {
      var s := DecodeRecord(Skip(mem, index));
      if s.Overrun? {
        return Fault;
      }
      records := AddTo(records, s.record);
      if s.last {
        return Decoded(records);
      }
      assert Skip(Skip(mem, index), s.size) == Skip(mem, index + s.size);
      index := index + s.size;
    }
    d := Decoded(records);
  }

  /**
   `memcpy(data + at, s, |s|)`: it extends what has been written since `start` and leaves the
   buffer alone outside `start..limit`.
   */
  method Append(data: array<Byte>, ghost start: nat, ghost limit: nat, at: nat, s: seq<Byte>) returns (next: nat)
    requires start <= at && at + |s| <= limit <= data.Length
    modifies data
    ensures next == at + |s|
    ensures data[..start] == old(data[..start])
    ensures data[start..next] == old(data[start..at]) + s
    ensures data[limit..] == old(data[limit..])
  {
    for i := 0 to |s|
      invariant data[..at] == old(data[..at])
      invariant forall j :: 0 <= j < i ==> data[at + j] == s[j]
      invariant data[limit..] == old(data[limit..])
    {
      data[at + i] := s[i];
    }
    next := at + |s|;
    assert data[..start] == data[..at][..start];
    assert data[start..at] == data[..at][start..];
    assert data[start..next] == data[start..at] + data[at..next];
  }

  method WriteHeader(data: array<Byte>, ghost limit: nat, at: nat, r: Record, first: bool, last: bool) returns (next: nat)
    requires at + |Header(r, first, last)| <= limit <= data.Length
    modifies data
    ensures next == at + |Header(r, first, last)|
    ensures data[..at] == old(data[..at])
    ensures data[at..next] == Header(r, first, last)
    ensures data[limit..] == old(data[limit..])
  {
    hide TnfByte;
    next := Append(data, at, limit, at, [TnfByte(r, first, last)]);
    next := Append(data, at, limit, next, [|r.typ| % 256]);
    next := Append(data, at, limit, next, LengthField(|r.payload|));
    if r.id != [] {
      next := Append(data, at, limit, next, [|r.id| % 256]);
    }
  }

  /** `NdefRecord::encode`: header, type, identifier and payload through one moving pointer. */
  method WriteRecord(data: array<Byte>, ghost limit: nat, at: nat, r: Record, first: bool, last: bool) returns (next: nat)
    requires at + RecordSize(r) <= limit <= data.Length
    modifies data
    ensures next == at + RecordSize(r)
    ensures data[..at] == old(data[..at])
    ensures data[at..next] == EncodeRecord(r, first, last)
    ensures data[limit..] == old(data[limit..])
  {
    hide TnfByte, Header;
    EncodedRecordInMemory(r, first, last, []);
    next := WriteHeader(data, limit, at, r, first, last);
    next := Append(data, at, limit, next, r.typ);
    if r.id != [] {
      next := Append(data, at, limit, next, r.id);
    }
    next := Append(data, at, limit, next, r.payload);
  }

  class NdefMessage {
    var records: seq<Record>

    ghost predicate Valid()
      reads this
    {
      |records| <= MAX_NDEF_RECORDS
    }

    constructor ()
      ensures Valid() && records == []
    {
      records := [];
    }

    method AddRecord(r: Record) returns (added: bool)
      requires Valid()
      modifies this
      ensures Valid()
      ensures added <==> old(|records|) < MAX_NDEF_RECORDS
      ensures records == if added then old(records) + [r] else old(records)
    {
      added := |records| < MAX_NDEF_RECORDS;
      if added {
        records := records + [r];
      }
    }

    method GetEncodedSize() returns (size: nat)
      ensures size == |EncodeMessage(records)|
    {
      EncodedLength(records, true);
      size := 0;
      for i := 0 to |records|
        invariant size + MessageSize(records[i..]) == MessageSize(records)
      {
        assert records[i..][1..] == records[i + 1..];
        size := size + RecordSize(records[i]);
      }
    }

    /** Fills exactly the encoded size of the caller's buffer and nothing after it. */
    method Encode(data: array<Byte>)
      requires MessageSize(records) <= data.Length
      modifies data
      ensures |EncodeMessage(records)| == MessageSize(records)
      ensures data[..MessageSize(records)] == EncodeMessage(records)
      ensures data[MessageSize(records)..] == old(data[MessageSize(records)..])
    {
      hide EncodeRecord, RecordSize;
      ghost var all, n := EncodeMessage(records), MessageSize(records);
      EncodedLength(records, true);
      var at := 0;
      for i := 0 to |records|
        invariant at + MessageSize(records[i..]) == n
        invariant data[..at] + EncodeTail(records[i..], i == 0) == all
        invariant data[n..] == old(data[n..])
      {
        ghost var before, tail := data[..at], EncodeTail(records[i + 1..], false);
        assert records[i..][1..] == records[i + 1..];
        ghost var bytes := EncodeRecord(records[i], i == 0, i + 1 == |records|);
        EncodedLength(records[i + 1..], false);
        at := WriteRecord(data, n, at, records[i], i == 0, i + 1 == |records|);
        assert data[..at] == before + bytes;
        assert before + bytes + tail == before + (bytes + tail);
      }
      assert data[..at] + [] == data[..at];
    }
  }
}
