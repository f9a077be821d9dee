/**
 The display library's two UTF-8 decoders, one fed a byte at a time and one reading a line buffer,
 against the encoding of section 3 of RFC 3629 for the code points they support.
 */
module Utf8 {
  import opened Bytes

  /** A nonzero code point of the basic multilingual plane. */
  type Code = c: int | 0 < c < 0x10000 witness 1

  function EncodeOne(c: Code): (s: seq<Byte>)
    ensures 1 <= |s| <= 3
  {
    if c < 0x80 then [c]
    else if c < 0x800 then [0xC0 + c / 64, 0x80 + c % 64]
    else [0xE0 + c / 4096, 0x80 + c / 64 % 64, 0x80 + c % 64]
  }

  function Encode(codes: seq<Code>): seq<Byte> {
    if codes == [] then [] else EncodeOne(codes[0]) + Encode(codes[1..])
  }

  // ----- a byte at a time

  /** How many continuation bytes are awaited, and the code point collected so far. */
  datatype State = State(awaited: nat, buffer: nat)
  {
    /** The bits still awaited are zero, so or-ing them in is adding them. */
    ghost predicate Valid() {
      && awaited <= 2 && buffer < 0x10000
      && (awaited == 1 ==> buffer % 64 == 0)
      && (awaited == 2 ==> buffer % 4096 == 0)
    }
  }

  /** The state after one byte and the value returned for it, zero meaning "not yet". */
  function Feed(s: State, c: Byte): (State, nat) {
    if c < 0x80 then (s.(awaited := 0), c)
    else if s.awaited == 0 then
      if 0xC0 <= c < 0xE0 then (State(1, c % 32 * 64), 0)
      else if 0xE0 <= c < 0xF0 then (State(2, c % 16 * 4096), 0)
      else (s, c)
    else if s.awaited == 2 then (State(1, s.buffer + c % 64 * 64), 0)
    else (State(0, s.buffer + c % 64), s.buffer + c % 64)
  }

  lemma FeedKeepsValid(s: State, c: Byte)
    requires s.Valid()
    ensures Feed(s, c).0.Valid()
  {
    if c >= 0x80 {
      if s.awaited == 2 {
        SecondByte(s.buffer, c % 64);
      } else if s.awaited == 1 {
        LastByte(s.buffer, c % 64);
      } else {
        FirstByte(c);
      }
    }
  }

  lemma FirstByte(c: Byte)
    ensures c % 32 * 64 < 0x10000 && c % 32 * 64 % 64 == 0
    ensures c % 16 * 4096 < 0x10000 && c % 16 * 4096 % 4096 == 0
  {
  }

  lemma SecondByte(b: nat, c: nat)
    requires b < 0x10000 && b % 4096 == 0 && c < 64
    ensures b + c * 64 < 0x10000 && (b + c * 64) % 64 == 0
  {
    var q := b / 4096;
    assert b == q * 4096 && q < 16;
    assert b + c * 64 == (q * 64 + c) * 64;
  }

  /** The bits or-ed in by the second byte of three, and by the last byte, fall into zeros: they are added. */
  lemma OrSecond(b: nat, c: nat)
    requires b % 4096 == 0 && c < 64
    ensures Or(b, c * 64) == b + c * 64
  {
    Powers();
    assert b == b / 4096 * 4096;
    OrAdds(b / 4096, c * 64, 12);
  }

  lemma OrLast(b: nat, c: nat)
    requires b % 64 == 0 && c < 64
    ensures Or(b, c) == b + c
  {
    Powers();
    assert b == b / 64 * 64;
    OrAdds(b / 64, c, 6);
  }

  lemma Powers()
    ensures Pow2(6) == 64 && Pow2(12) == 4096
  {
    assert Pow2(3) == 8 && Pow2(6) == 64 && Pow2(9) == 512;
  }

  lemma LastByte(b: nat, c: nat)
    requires b < 0x10000 && b % 64 == 0 && c < 64
    ensures b + c < 0x10000
  {
  }

  /** The nonzero values returned over a byte sequence, and the state it ends in. */
  function Stream(s: State, bytes: seq<Byte>): (State, seq<nat>)
    decreases |bytes|
  {
    if bytes == [] then (s, [])
    else
      var (next, v) := Feed(s, bytes[0]);
      var (last, vs) := Stream(next, bytes[1..]);
      (last, if v == 0 then vs else [v] + vs)
  }

  lemma {:induction false} StreamAppend(s: State, a: seq<Byte>, b: seq<Byte>)
    ensures Stream(s, a + b) == (Stream(Stream(s, a).0, b).0, Stream(s, a).1 + Stream(Stream(s, a).0, b).1)
    decreases |a|
  {
    hide Feed;
    if a == [] {
      assert a + b == b;
      assert [] + Stream(s, b).1 == Stream(s, b).1;
    } else {
      assert (a + b)[1..] == a[1..] + b;
      var (next, v) := Feed(s, a[0]);
      StreamAppend(next, a[1..], b);
      var later := Stream(Stream(s, a).0, b).1;
      assert [v] + (Stream(next, a[1..]).1 + later) == [v] + Stream(next, a[1..]).1 + later;
    }
  }

  /** From a boundary, one encoded character gives one value and ends at a boundary. */
  lemma StreamOne(s: State, c: Code)
    requires s.awaited == 0
    ensures Stream(s, EncodeOne(c)).0.awaited == 0
    ensures Stream(s, EncodeOne(c)).1 == [c]
  {
    hide Feed, Stream;
    var e := EncodeOne(c);
    if c < 0x80 {
      FeedAscii(s, c);
      StreamLast(s, c);
    } else if c < 0x800 {
      FeedTwo(s, c);
      StreamNext(s, e);
      StreamLast(State(1, c / 64 * 64), e[1]);
      assert e[1..] == [e[1]];
    } else {
      FeedThree(s, c);
      StreamNext(s, e);
      assert e[1..] == [e[1], e[2]];
      StreamNext(State(2, c / 4096 * 4096), [e[1], e[2]]);
      assert [e[1], e[2]][1..] == [e[2]];
      StreamLast(State(1, c / 64 * 64), e[2]);
    }
  }

  lemma FeedAscii(s: State, c: Code)
    requires c < 0x80
    ensures Feed(s, c) == (s.(awaited := 0), c)
  {
  }

  lemma FeedTwo(s: State, c: Code)
    requires s.awaited == 0 && 0x80 <= c < 0x800
    ensures var e := EncodeOne(c);
            Feed(s, e[0]) == (State(1, c / 64 * 64), 0) && Feed(State(1, c / 64 * 64), e[1]) == (State(0, c), c)
  {
  }

  lemma FeedThree(s: State, c: Code)
    requires s.awaited == 0 && 0x800 <= c
    ensures var e := EncodeOne(c);
            && Feed(s, e[0]) == (State(2, c / 4096 * 4096), 0)
            && Feed(State(2, c / 4096 * 4096), e[1]) == (State(1, c / 64 * 64), 0)
            && Feed(State(1, c / 64 * 64), e[2]) == (State(0, c), c)
  {
    ThreeBytes(c);
  }

  lemma StreamNext(s: State, bytes: seq<Byte>)
    requires bytes != [] && Feed(s, bytes[0]).1 == 0
    ensures Stream(s, bytes) == Stream(Feed(s, bytes[0]).0, bytes[1..])
  {
    hide Feed;
  }

  lemma StreamLast(s: State, c: Byte)
    ensures var (next, v) := Feed(s, c); Stream(s, [c]) == (next, if v == 0 then [] else [v])
  {
    hide Feed;
    assert [c][1..] == [];
    assert [Feed(s, c).1] + [] == [Feed(s, c).1];
  }

  /** Whole texts, from any boundary. */
  lemma {:induction false} StreamDecodes(s: State, codes: seq<Code>)
    requires s.awaited == 0
    ensures Stream(s, Encode(codes)).0.awaited == 0 && Stream(s, Encode(codes)).1 == codes
    decreases |codes|
  {
    hide Stream, EncodeOne;
    if codes == [] {
      NothingStreamed(s);
    } else {
      var e, rest := EncodeOne(codes[0]), Encode(codes[1..]);
      StreamOne(s, codes[0]);
      StreamAppend(s, e, rest);
      StreamDecodes(Stream(s, e).0, codes[1..]);
      assert codes == [codes[0]] + codes[1..];
    }
  }

  lemma NothingStreamed(s: State)
    ensures Stream(s, []) == (s, [])
  {
  }

  /** The state is at rest between any two characters of a text. */
  lemma BoundariesAreAtRest(s: State, codes: seq<Code>, k: nat)
    requires s.awaited == 0 && k <= |codes|
    ensures Encode(codes[..k]) <= Encode(codes)
    ensures Stream(s, Encode(codes[..k])).0.awaited == 0
  {
    hide Stream;
    StreamDecodes(s, codes[..k]);
    EncodePrefix(codes, k);
  }

  lemma {:induction false} EncodePrefix(codes: seq<Code>, k: nat)
    requires k <= |codes|
    ensures Encode(codes[..k]) <= Encode(codes)
  {
    if k > 0 {
      assert codes[..k][1..] == codes[1..][..k - 1];
      EncodePrefix(codes[1..], k - 1);
    }
  }

  // ----- from a line buffer

  /** The code point at `index`, and the index after it; a character cut short falls back to bytes. */
  function DecodeAt(buf: seq<Byte>, index: nat, remaining: int): (nat, nat)
    requires index < |buf| && remaining <= |buf| - index
  {
    var c: int := buf[index];
    if c < 0x80 then (c, index + 1)
    else if 0xC0 <= c < 0xE0 && remaining > 1 then
      var d: int := buf[index + 1];
      (c % 32 * 64 + d % 64, index + 2)
    else if 0xE0 <= c < 0xF0 && remaining > 2 then
      var (d: int, e: int) := (buf[index + 1], buf[index + 2]);
      (c % 16 * 4096 + d % 64 * 64 + e % 64, index + 3)
    else (c, index + 1)
  }

  /** The loop the text functions run: decode until the buffer is used up. */
  function DecodeFrom(buf: seq<Byte>, index: nat): seq<nat>
    requires index <= |buf|
    decreases |buf| - index
  {
    if index == |buf| then []
    else
      var (c, next) := DecodeAt(buf, index, |buf| - index);
      [c] + DecodeFrom(buf, next)
  }

  lemma ThreeBytes(c: Code)
    requires c >= 0x800
    ensures (0xE0 + c / 4096) % 16 == c / 4096 && (0x80 + c / 64 % 64) % 64 == c / 64 % 64 && (0x80 + c % 64) % 64 == c % 64
    ensures c / 4096 * 4096 + c / 64 % 64 * 64 + c % 64 == c
  {
    assert c / 64 / 64 == c / 4096;
  }

  lemma DecodeOneAt(buf: seq<Byte>, index: nat, c: Code)
    requires index <= |buf| && EncodeOne(c) <= buf[index..]
    ensures index < |buf| && DecodeAt(buf, index, |buf| - index) == (c, index + |EncodeOne(c)|)
  {
    var e, tail := EncodeOne(c), buf[index..];
    assert buf[index] == tail[0] == e[0];
    if c >= 0x80 {
      assert buf[index + 1] == tail[1] == e[1];
      if c >= 0x800 {
        assert buf[index + 2] == tail[2] == e[2];
        ThreeBytes(c);
      }
    }
  }

  lemma {:induction false} BufferDecodes(buf: seq<Byte>, index: nat, codes: seq<Code>)
    requires index <= |buf| && buf[index..] == Encode(codes)
    ensures DecodeFrom(buf, index) == codes
    decreases |codes|
  {
    hide DecodeAt, EncodeOne;
    if codes != [] {
      var e, rest := EncodeOne(codes[0]), Encode(codes[1..]);
      assert buf[index..] == e + rest;
      DecodeOneAt(buf, index, codes[0]);
      var next := index + |e|;
      assert buf[next..] == buf[index..][|e|..] == rest;
      BufferDecodes(buf, next, codes[1..]);
      assert codes == [codes[0]] + codes[1..];
    }
  }

  /** Both decoders return the text that was encoded, and so agree with each other. */
  lemma DecodersAgree(codes: seq<Code>)
    ensures DecodeFrom(Encode(codes), 0) == codes
    ensures Stream(State(0, 0), Encode(codes)).1 == codes
  {
    hide DecodeFrom, Stream;
    var buf := Encode(codes);
    assert buf[0..] == buf;
    BufferDecodes(buf, 0, codes);
    StreamDecodes(State(0, 0), codes);
  }

  // ----- the decoders as the source runs them

  /** A first byte of two or of three gives its bits and the number of bytes still awaited, to both decoders. */
  lemma LeadBytes(s: State, c: Byte, d: Byte, e: Byte, rest: seq<Byte>)
    requires s.awaited == 0
    ensures 0xC0 <= c <= 0xDF ==>
              && Feed(s, c) == (State(1, (c - 0xC0) * 64), 0)
              && DecodeAt([c, d] + rest, 0, 2) == ((c - 0xC0) * 64 + d % 64, 2)
    ensures 0xE0 <= c <= 0xEF ==>
              && Feed(s, c) == (State(2, (c - 0xE0) * 4096), 0)
              && DecodeAt([c, d, e] + rest, 0, 3) == ((c - 0xE0) * 4096 + d % 64 * 64 + e % 64, 3)
  {
    LeadBits(c);
  }

  lemma LeadBits(c: Byte)
    ensures 0xC0 <= c <= 0xDF ==> c % 32 == c - 0xC0
    ensures 0xE0 <= c <= 0xEF ==> c % 16 == c - 0xE0
  {
  }

  /** Bytes that begin no supported character are returned as they are, by both decoders. */
  lemma StrayBytes(s: State, buf: seq<Byte>, index: nat, remaining: int)
    requires index < |buf| && remaining <= |buf| - index && s.awaited == 0
    requires 0x80 <= buf[index] < 0xC0 || 0xF0 <= buf[index]
    ensures Feed(s, buf[index]) == (s, buf[index])
    ensures DecodeAt(buf, index, remaining) == (buf[index], index + 1)
  {
  }

  /** So is, by the line decoder, the first byte of a character that the line cuts short. */
  lemma CutShort(buf: seq<Byte>, index: nat, remaining: int)
    requires index < |buf| && remaining <= |buf| - index
    requires (0xC0 <= buf[index] < 0xE0 && remaining <= 1) || (0xE0 <= buf[index] < 0xF0 && remaining <= 2)
    ensures DecodeAt(buf, index, remaining) == (buf[index], index + 1)
  {
  }

  /** Within a character every byte from 80 on counts as its next one, and an ASCII byte ends it. */
  lemma NextBytes(s: State, c: Byte)
    requires s.awaited > 0
    ensures c < 0x80 ==> Feed(s, c).0.awaited == 0 && Feed(s, c).1 == c
    ensures c >= 0x80 && s.awaited == 2 ==> Feed(s, c).0.awaited == 1 && Feed(s, c).1 == 0
    ensures c >= 0x80 && s.awaited == 1 ==> Feed(s, c).0.awaited == 0 && Feed(s, c).1 == s.buffer + c % 64
  {
  }

  class TextDecoder {
    var decoderState: nat
    var decoderBuffer: nat

    ghost function View(): State
      reads this
    {
      State(decoderState, decoderBuffer)
    }

    constructor ()
      ensures View() == State(0, 0) && View().Valid()
    {
      decoderState, decoderBuffer := 0, 0;
    }

    method DecodeByte(c: Byte) returns (v: nat)
      requires View().Valid()
      modifies this
      ensures View().Valid()
      ensures (View(), v) == Feed(old(View()), c)
    {
      hide Or;
      FeedKeepsValid(View(), c);
      if c < 0x80 {
        decoderState := 0;
        return c;
      }
      if decoderState == 0 {
        if 0xC0 <= c < 0xE0 {
          decoderBuffer := c % 32 * 64;
          decoderState := 1;
          return 0;
        }
        if 0xE0 <= c < 0xF0 {
          decoderBuffer := c % 16 * 4096;
          decoderState := 2;
          return 0;
        }
      } else if decoderState == 2 {
        OrSecond(decoderBuffer, c % 64);
        decoderBuffer := Or(decoderBuffer, c % 64 * 64);
        decoderState := decoderState - 1;
        return 0;
      } else {
        OrLast(decoderBuffer, c % 64);
        decoderBuffer := Or(decoderBuffer, c % 64);
        decoderState := 0;
        return decoderBuffer;
      }
      decoderState := 0;
      v := c;
    }

    /** Printing a string byte by byte, keeping the values that are not "not yet". */
    method DecodeBytes(bytes: seq<Byte>) returns (vs: seq<nat>)
      requires View().Valid()
      modifies this
      ensures View().Valid()
      ensures (View(), vs) == Stream(old(View()), bytes)
    {
      hide Feed;
      vs := [];
      ghost var all := Stream(View(), bytes);
      assert bytes[0..] == bytes && [] + all.1 == all.1;
      for i := 0 to |bytes|
        invariant View().Valid()
        invariant all == (Stream(View(), bytes[i..]).0, vs + Stream(View(), bytes[i..]).1)
      {
        assert bytes[i..][0] == bytes[i] && bytes[i..][1..] == bytes[i + 1..];
        ghost var rest := Stream(Feed(View(), bytes[i]).0, bytes[i + 1..]).1;
        var v := DecodeByte(bytes[i]);
        if v != 0 {
          assert vs + ([v] + rest) == vs + [v] + rest;
          vs := vs + [v];
        }
      }
      assert vs + [] == vs;
    }
  }

  /** The code point at `index`; the index moves past it. */
  method DecodeCode(buf: seq<Byte>, index: nat, remaining: int) returns (code: nat, next: nat)
    requires index < |buf| && remaining <= |buf| - index
    ensures (code, next) == DecodeAt(buf, index, remaining)
  {
    hide Or;
    var c: int := buf[index];
    if c < 0x80 {
      return c, index + 1;
    }
    if 0xC0 <= c < 0xE0 && remaining > 1 {
      var d: int := buf[index + 1];
      OrLast(c % 32 * 64, d % 64);
      return Or(c % 32 * 64, d % 64), index + 2;
    }
    if 0xE0 <= c < 0xF0 && remaining > 2 {
      var d: int, e: int := buf[index + 1], buf[index + 2];
      OrSecond(c % 16 * 4096, d % 64);
      var high := Or(c % 16 * 4096, d % 64 * 64);
      LowBitsClear(c % 16, d % 64);
      OrLast(high, e % 64);
      return Or(high, e % 64), index + 3;
    }
    return c, index + 1;
  }

  lemma LowBitsClear(q: nat, c: nat)
    ensures (q * 4096 + c * 64) % 64 == 0 && q * 4096 % 4096 == 0
  {
    assert q * 4096 + c * 64 == (q * 64 + c) * 64;
  }

  /** Drawing a string: the loop over the line buffer. */
  method DecodeLine(buf: seq<Byte>) returns (vs: seq<nat>)
    ensures vs == DecodeFrom(buf, 0)
  {
    hide DecodeAt, DecodeFrom;
    vs := [];
    var n := 0;
    ghost var all := DecodeFrom(buf, 0);
    while n < |buf|
      invariant n <= |buf|
      invariant all == vs + DecodeFrom(buf, n)
    {
      IndexAdvances(buf, n);
      ghost var rest := DecodeFrom(buf, n);
      var c, next := DecodeCode(buf, n, |buf| - n);
      assert rest == [c] + DecodeFrom(buf, next);
      vs, n := vs + [c], next;
    }
    NothingLeft(buf);
  }

  lemma NothingLeft(buf: seq<Byte>)
    ensures DecodeFrom(buf, |buf|) == []
  {
  }

  lemma IndexAdvances(buf: seq<Byte>, index: nat)
    requires index < |buf|
    ensures index < DecodeAt(buf, index, |buf| - index).1 <= |buf|
    ensures var (c, next) := DecodeAt(buf, index, |buf| - index); DecodeFrom(buf, index) == [c] + DecodeFrom(buf, next)
  {
  }
}
