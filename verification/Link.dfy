/**
 The PN532 as an NFC target: `tgGetData` and `tgSetData` over the one packet buffer that the layers
 above use for their headers, and the trace of link operations.
 */
module Link {
  import opened Bytes
  import opened Memory

  const PACKET_SIZE := 64
  const TGGETDATA: Byte := 0x86
  const TGSETDATA: Byte := 0x8E

  type Negative = n: int | n < 0 witness -1

  /**
   What the chip does with the next command: it is not acknowledged, a response arrives, or reading
   the response fails after leaving some bytes in the caller's buffer.
   */
  datatype Reply = Refused | Data(bytes: seq<Byte>) | Broken(status: Negative, junk: seq<Byte>)

  /** A link operation: one `tgGetData`, or one `tgSetData` with the command it writes. */
  datatype Op = Get | Set(command: seq<Byte>)

  function Next(replies: seq<Reply>): Reply {
    if replies == [] then Refused else replies[0]
  }

  function Drop(replies: seq<Reply>, n: nat): seq<Reply> {
    if n <= |replies| then replies[n..] else []
  }

  /** The result of `tgGetData` into a buffer of `len` bytes. */
  function GetStatus(r: Reply, len: nat): int {
    match r
    case Refused => -1
    case Broken(status, _) => status
    case Data(b) => if |b| > len then -4 else if b == [] then 0 else if b[0] != 0 then -5 else |b| - 1
  }

  /** The buffer after `tgGetData`: on success the data, shifted down over the status byte. */
  function GetBuffer(buf: seq<Byte>, r: Reply, len: nat): (after: seq<Byte>)
    requires 1 <= len <= |buf|
    ensures |after| == |buf|
  {
    var sent := buf[0 := TGGETDATA];
    match r
    case Refused => sent
    case Broken(_, junk) => if |junk| <= len then Splice(sent, 0, junk) else sent
    case Data(b) =>
      if |b| > len || b == [] then sent
      else if b[0] != 0 then Splice(sent, 0, b)
      else Splice(Splice(sent, 0, b), 0, b[1..])
  }

  /** `tgSetData` succeeds when the status byte of the response is zero. */
  predicate SetOk(r: Reply) {
    r.Data? && r.bytes != [] && |r.bytes| <= PACKET_SIZE && r.bytes[0] == 0
  }

  /** `dst[i + k] = src[i]` from the last byte down: safe when `dst` and `src` are one buffer. */
  method ShiftUp(dst: array<Byte>, src: array<Byte>, n: nat, k: nat)
    requires n <= src.Length && n + k <= dst.Length
    modifies dst
    ensures dst[k..k + n] == old(src[..n])
    ensures dst[..k] == old(dst[..k]) && dst[k + n..] == old(dst[k + n..])
  {
    var i := n;
    while i > 0
      invariant 0 <= i <= n
      invariant forall j :: 0 <= j < dst.Length ==> dst[j] == if i + k <= j < n + k then old(src[j - k]) else old(dst[j])
      invariant forall j :: 0 <= j < i ==> src[j] == old(src[j])
    {
      i := i - 1;
      dst[i + k] := src[i];
    }
  }

  /** `buf[i] = buf[i + k]` from the first byte up. */
  method ShiftDown(buf: array<Byte>, n: nat, k: nat)
    requires n + k <= buf.Length
    modifies buf
    ensures buf[..n] == old(buf[k..k + n]) && buf[n..] == old(buf[n..])
  {
    for i := 0 to n
      invariant forall j :: 0 <= j < buf.Length ==> buf[j] == if j < i then old(buf[j + k]) else old(buf[j])
    {
      buf[i] := buf[i + k];
    }
  }

  class Pn532 {
    const packet: array<Byte>
    var replies: seq<Reply>
    var trace: seq<Op>

    ghost predicate Valid() {
      packet.Length == PACKET_SIZE
    }

    constructor (replies: seq<Reply>)
      ensures Valid() && fresh(packet) && this.replies == replies && trace == []
    {
      packet := new Byte[PACKET_SIZE](_ => 0);
      this.replies, trace := replies, [];
    }

    method TakeReply() returns (r: Reply)
      modifies `replies
      ensures r == Next(old(replies)) && replies == Drop(old(replies), 1)
    {
      r := Next(replies);
      replies := Drop(replies, 1);
    }

    method TgGetData(buf: array<Byte>, len: nat) returns (status: int)
      requires 1 <= len <= buf.Length
      modifies `replies, `trace, buf
      ensures status == GetStatus(Next(old(replies)), len)
      ensures buf[..] == GetBuffer(old(buf[..]), Next(old(replies)), len)
      ensures replies == Drop(old(replies), 1) && trace == old(trace) + [Get]
    {
      trace := trace + [Get];
      buf[0] := TGGETDATA;
      ghost var sent := buf[..];
      assert sent == old(buf[..])[0 := TGGETDATA];
      var r := TakeReply();
      match r
      case Refused =>
        return -1;
      case Broken(status, junk) =>
        if |junk| <= len {
          MemCpy(buf, 0, junk);
        }
        return status;
      case Data(b) =>
        if |b| > len {
          return -4;
        }
        MemCpy(buf, 0, b);
        if |b| == 0 {
          assert Splice(sent, 0, b) == sent;
          return 0;
        }
        if buf[0] != 0 {
          return -5;
        }
        ghost var got := buf[..];
        assert got[1..|b|] == b[1..];
        ShiftDown(buf, |b| - 1, 1);
        assert buf[..] == buf[..|b| - 1] + buf[|b| - 1..];
        assert buf[..] == Splice(got, 0, b[1..]);
        status := |b| - 1;
    }

    /** The command is the header, shifted up behind the command byte, and the body. */
    method TgSetData(header: array<Byte>, hlen: nat, body: seq<Byte>, hasBody: bool) returns (ok: bool)
      requires Valid() && hlen <= header.Length && (!hasBody ==> body == [])
      modifies `replies, `trace, packet
      ensures var unsent := hlen >= PACKET_SIZE && (hasBody || header == packet);
              && (unsent ==> !ok && replies == old(replies) && trace == old(trace))
              && (!unsent ==>
                  && ok == SetOk(Next(old(replies)))
                  && replies == Drop(old(replies), 1)
                  && trace == old(trace) + [Set([TGSETDATA] + old(header[..hlen]) + body)])
    {
      if hlen > PACKET_SIZE - 1 {
        if hasBody || header == packet {
          return false;
        }
        packet[0] := TGSETDATA;
        assert [TGSETDATA] + header[..hlen] + body == [TGSETDATA] + header[..hlen];
        trace := trace + [Set([packet[0]] + header[..hlen])];
      } else {
        ShiftUp(packet, header, hlen, 1);
        packet[0] := TGSETDATA;
        assert packet[..hlen + 1] == [TGSETDATA] + packet[1..hlen + 1];
        trace := trace + [Set(packet[..hlen + 1] + body)];
      }
      var r := TakeReply();
      match r
      case Refused =>
        return false;
      case Broken(_, junk) =>
        if |junk| <= PACKET_SIZE {
          MemCpy(packet, 0, junk);
        }
        return false;
      case Data(b) =>
        if |b| > PACKET_SIZE {
          return false;
        }
        MemCpy(packet, 0, b);
        ok := packet[0] == 0;
    }
  }
}
