/**
 The logical link layer: connection, disconnection, sending and receiving of information PDUs over
 the shared packet buffer. PDU types: section 4.3 of NFC Forum LLCP 1.1.
 */
module Llcp {
  import opened Bytes
  import opened Memory
  import opened Link

  const SYMM := 0x0
  const CONNECT := 0x4
  const DISC := 0x5
  const CC := 0x6
  const DM := 0x7
  const INFORMATION := 0xC
  const RR := 0xD

  const DEFAULT_DSAP: Sap := 0x04
  const DEFAULT_SSAP: Sap := 0x20

  /** The link hands out four bytes less than it has. */
  const HEADER_BUFFER := PACKET_SIZE - 4

  type Sap = s: int | 0 <= s < 64
  type PduType = t: int | 0 <= t < 16

  function GetPType(b0: Byte, b1: Byte): PduType { (b0 % 4) * 4 + b1 / 64 }
  function GetSsap(b1: Byte): Sap { b1 % 64 }
  function GetDsap(b0: Byte): Sap { b0 / 4 }

  function Header(dsap: Sap, t: PduType, ssap: Sap): seq<Byte> {
    [dsap * 4 + t / 4, (t % 4) * 64 + ssap]
  }

  /** The two header bytes carry exactly the two access points and the type. */
  lemma HeaderRoundTrip(dsap: Sap, t: PduType, ssap: Sap)
    ensures var h := Header(dsap, t, ssap);
            GetPType(h[0], h[1]) == t && GetDsap(h[0]) == dsap && GetSsap(h[1]) == ssap
  {
  }

  const SYMM_PDU: seq<Byte> := [0, 0]
  const SYMM_COMMAND: seq<Byte> := [TGSETDATA] + SYMM_PDU

  // ----- turns

  /** From `k` on the trace takes turns, beginning with a read exactly when `read` holds. */
  predicate TurnsFrom(trace: seq<Op>, k: nat, read: bool) {
    forall i :: k <= i < |trace| ==> (trace[i].Get? <==> ((i - k) % 2 == 0) == read)
  }

  /** Half duplex: read, write, read, write. */
  predicate Alternates(trace: seq<Op>) {
    TurnsFrom(trace, 0, true)
  }

  /** Turns taken up where they were left go on. */
  lemma TurnsJoin(trace: seq<Op>, j: nat, k: nat, read: bool)
    requires j <= k <= |trace|
    requires TurnsFrom(trace[..k], j, read)
    requires TurnsFrom(trace, k, if (k - j) % 2 == 0 then read else !read)
    ensures TurnsFrom(trace, j, read)
  {
    forall i | j <= i < |trace|
      ensures trace[i].Get? <==> ((i - j) % 2 == 0) == read
    {
      if i < k {
        assert trace[i] == trace[..k][i];
      }
    }
  }

  /** One more operation in turn. */
  lemma TurnsGrow(trace: seq<Op>, k: nat, read: bool, op: Op)
    requires k <= |trace| && TurnsFrom(trace, k, read)
    requires op.Get? <==> ((|trace| - k) % 2 == 0) == read
    ensures TurnsFrom(trace + [op], k, read)
  {
  }

  lemma NoTurns(trace: seq<Op>, read: bool)
    ensures TurnsFrom(trace, |trace|, read)
  {
  }

  /** `n` operations of a waiting loop: reads, with a SYMM written after each but the last. */
  function Polling(n: nat): (ops: seq<Op>)
    ensures |ops| == n && TurnsFrom(ops, 0, true)
  {
    seq(n, i => if i % 2 == 0 then Get else Set(SYMM_COMMAND))
  }

  lemma PollingGrows(n: nat)
    ensures Polling(n + 1) == Polling(n) + [if n % 2 == 0 then Get else Set(SYMM_COMMAND)]
  {
  }

  lemma DropDrop(replies: seq<Reply>, a: nat, b: nat)
    ensures Drop(Drop(replies, a), b) == Drop(replies, a + b)
  {
  }

  lemma DropShrinks(replies: seq<Reply>, n: nat)
    ensures n > 0 && replies != [] ==> |Drop(replies, n)| < |replies|
    ensures Drop(replies, 0) == replies
  {
  }

  lemma PollingStarts(trace: seq<Op>)
    ensures trace + Polling(0) == trace
  {
  }

  /** The trace grown by turns that begin with a read takes turns from there. */
  lemma PollingTurns(trace: seq<Op>, n: nat)
    ensures trace <= trace + Polling(n) && TurnsFrom(trace + Polling(n), |trace|, true)
  {
    var all := trace + Polling(n);
    forall i | |trace| <= i < |all|
      ensures all[i].Get? <==> (i - |trace|) % 2 == 0
    {
      assert all[i] == Polling(n)[i - |trace|];
    }
  }

  /** A PDU of two bytes or more is at the start of the buffer it was read into. */
  lemma GetDelivers(buf: seq<Byte>, r: Reply, len: nat)
    requires 1 <= len <= |buf| && GetStatus(r, len) >= 0
    ensures r.Data? && |r.bytes| <= len
    ensures r.bytes != [] ==> GetStatus(r, len) == |r.bytes| - 1
    ensures r.bytes != [] ==> GetBuffer(buf, r, len)[..|r.bytes| - 1] == r.bytes[1..]
    ensures GetStatus(r, len) >= 1 ==> r.bytes != []
  {
  }

  // ----- waiting for a PDU in the packet buffer

  datatype End = Arrived | TooShort | NotSent | Unexpected

  /** How a wait ends, with what PDU, and how many replies it used up. */
  datatype Wait = Wait(end: End, pdu: seq<Byte>, used: nat)

  /** Wait for a PDU of type `wanted`, answering each one of type `filler` with SYMM. */
  function WaitFor(replies: seq<Reply>, wanted: PduType, filler: PduType): (w: Wait)
    ensures w.end == Arrived ==> 2 <= |w.pdu| < HEADER_BUFFER
    ensures w.used >= 1 && (w.used % 2 == 0 <==> w.end == NotSent)
    decreases |replies|
  {
    var r := Next(replies);
    if GetStatus(r, HEADER_BUFFER) < 2 then Wait(TooShort, [], 1)
    else
      var pdu := r.bytes[1..];
      var t := GetPType(pdu[0], pdu[1]);
      if t == wanted then Wait(Arrived, pdu, 1)
      else if t != filler then Wait(Unexpected, [], 1)
      else if !SetOk(Next(Drop(replies, 1))) then Wait(NotSent, [], 2)
      else
        var w := WaitFor(Drop(replies, 2), wanted, filler);
        w.(used := w.used + 2)
  }

  /** One turn of the loop, with the type read from the buffer. */
  lemma WaitTurn(replies: seq<Reply>, wanted: PduType, filler: PduType, packet: seq<Byte>)
    requires |packet| == PACKET_SIZE
    ensures var w, r := WaitFor(replies, wanted, filler), Next(replies);
            var after := GetBuffer(packet, r, HEADER_BUFFER);
            if GetStatus(r, HEADER_BUFFER) < 2 then w == Wait(TooShort, [], 1)
            else
              var t := GetPType(after[0], after[1]);
              && replies != []
              && |r.bytes| <= HEADER_BUFFER
              && (t == wanted ==> w.end == Arrived && w.used == 1 && after[..|w.pdu|] == w.pdu)
              && (t != wanted && t != filler ==> w == Wait(Unexpected, [], 1))
              && (t != wanted && t == filler ==>
                  if SetOk(Next(Drop(replies, 1)))
                  then w == WaitFor(Drop(replies, 2), wanted, filler).(used := WaitFor(Drop(replies, 2), wanted, filler).used + 2)
                  else w == Wait(NotSent, [], 2))
  {
    hide GetStatus, GetBuffer, SetOk;
    var r := Next(replies);
    if GetStatus(r, HEADER_BUFFER) >= 2 {
      GetDelivers(packet, r, HEADER_BUFFER);
      if replies == [] { NothingFromSilence(HEADER_BUFFER); }
      var after, pdu := GetBuffer(packet, r, HEADER_BUFFER), r.bytes[1..];
      assert after[0] == after[..|pdu|][0] && after[1] == after[..|pdu|][1];
    }
  }

  lemma NothingFromSilence(len: nat)
    ensures GetStatus(Refused, len) == -1
  {
  }

  function Code(end: End): int {
    match end
    case Arrived => 1
    case TooShort => -1
    case NotSent => -2
    case Unexpected => -3
  }

  // ----- exchanges

  /** The code an exchange returns and the replies it uses up. */
  datatype Exchange = Exchange(code: int, used: nat)

  /** Expect a SYMM, send a PDU, wait for its answer. */
  function Opening(replies: seq<Reply>, wanted: PduType, filler: PduType): (e: Exchange)
    ensures e.used >= 1 && (e.code == 1 || e.code < 0)
    ensures e.code == 1 ==> e.used % 2 == 1 && e.used > 2
  {
    var r := Next(replies);
    if GetStatus(r, HEADER_BUFFER) < 2 || GetPType(r.bytes[1], r.bytes[2]) != SYMM then Exchange(-1, 1)
    else if !SetOk(Next(Drop(replies, 1))) then Exchange(-2, 2)
    else
      var w := WaitFor(Drop(replies, 2), wanted, filler);
      Exchange(Code(w.end), 2 + w.used)
  }

  /** The link operations of an opening. */
  function OpeningOps(command: seq<Byte>, used: nat): (ops: seq<Op>)
    requires used >= 1
    ensures |ops| == used && TurnsFrom(ops, 0, true)
  {
    if used == 1 then [Get] else [Get, Set(command)] + Polling(used - 2)
  }

  /** Send an information PDU, wait for its receipt, answer it; code 1 is success. */
  function Sending(reading: bool, replies: seq<Reply>): (e: Exchange)
    ensures e.code == 0 || e.code == 1
    ensures e.used >= 1 && (reading && GetStatus(Next(replies), 3) == 2 ==> e.used > 1)
    ensures e.code == 1 ==> e.used % 2 == if reading then 0 else 1
  {
    if reading && GetStatus(Next(replies), 3) != 2 then Exchange(0, 1)
    else
      var start := if reading then 1 else 0;
      if !SetOk(Next(Drop(replies, start))) then Exchange(0, start + 1)
      else
        var w := WaitFor(Drop(replies, start + 1), RR, SYMM);
        var after := start + 1 + w.used;
        if w.end != Arrived then Exchange(0, after)
        else Exchange(if SetOk(Next(Drop(replies, after))) then 1 else 0, after + 1)
  }

  /** The link operations of a sending. */
  function SendingOps(reading: bool, command: seq<Byte>, used: nat): (ops: seq<Op>)
    ensures |ops| == used && TurnsFrom(ops, 0, reading)
  {
    seq(used, i => if (i % 2 == 0) == reading then Get
                   else if i == (if reading then 1 else 0) then Set(command) else Set(SYMM_COMMAND))
  }

  lemma SendingOpsStart(reading: bool, command: seq<Byte>)
    ensures SendingOps(reading, command, 0) == []
    ensures reading ==> SendingOps(reading, command, 1) == [Get]
    ensures !reading ==> SendingOps(reading, command, 1) == [Set(command)]
    ensures reading ==> SendingOps(reading, command, 2) == [Get] + [Set(command)]
  {
  }

  lemma SendingOpsPoll(reading: bool, command: seq<Byte>, n: nat)
    ensures var start := if reading then 2 else 1;
            && SendingOps(reading, command, start + n) == SendingOps(reading, command, start) + Polling(n)
            && (n % 2 == 1 ==> SendingOps(reading, command, start + n + 1) == SendingOps(reading, command, start + n) + [Set(SYMM_COMMAND)])
  {
    var start := if reading then 2 else 1;
    assert SendingOps(reading, command, start + n) == SendingOps(reading, command, start) + Polling(n);
  }

  /** The type of a PDU of two bytes or more is read from the buffer it arrived in. */
  lemma TypeInBuffer(packet: seq<Byte>, r: Reply)
    requires |packet| == PACKET_SIZE && GetStatus(r, HEADER_BUFFER) >= 2
    ensures r.Data? && |r.bytes| >= 3
    ensures var after := GetBuffer(packet, r, HEADER_BUFFER); after[0] == r.bytes[1] && after[1] == r.bytes[2]
  {
    GetDelivers(packet, r, HEADER_BUFFER);
    var after, n := GetBuffer(packet, r, HEADER_BUFFER), |r.bytes| - 1;
    assert after[0] == after[..n][0] && after[1] == after[..n][1];
  }

  // ----- waiting for an information PDU in the caller's buffer

  /** As `Wait`, with the status kept as the unsigned number it is stored in, and the buffer. */
  datatype Heard = Heard(end: End, status: nat, buf: seq<Byte>, used: nat)

  function Unsigned16(n: int): nat {
    n % 0x10000
  }

  /**
   The receiving loop. A negative status is stored unsigned and so passes for a long PDU, the type
   then being read from whatever is in the buffer.
   */
  function Hear(buf: seq<Byte>, replies: seq<Reply>, len: nat): (h: Heard)
    requires 2 <= len <= |buf|
    ensures |h.buf| == |buf|
    ensures h.used >= 1 && (h.used % 2 == 0 <==> h.end == NotSent)
    decreases |replies|
  {
    var r := Next(replies);
    var after := GetBuffer(buf, r, len);
    var status := Unsigned16(GetStatus(r, len));
    var t := GetPType(after[0], after[1]);
    if status < 2 then Heard(TooShort, status, after, 1)
    else if t == INFORMATION then Heard(Arrived, status, after, 1)
    else if t != SYMM || replies == [] then Heard(Unexpected, status, after, 1)
    else if !SetOk(Next(Drop(replies, 1))) then Heard(NotSent, status, after, 2)
    else
      var h := Hear(after, Drop(replies, 2), len);
      h.(used := h.used + 2)
  }

  /** With no reply left the buffer starts with the command byte, which is no SYMM. */
  lemma SilenceIsUnexpected(buf: seq<Byte>, len: nat)
    requires 2 <= len <= |buf|
    ensures var after := GetBuffer(buf, Refused, len); GetPType(after[0], after[1]) >= 8
  {
  }

  lemma HearTurn(buf: seq<Byte>, replies: seq<Reply>, len: nat)
    requires 2 <= len <= |buf|
    ensures var h, r := Hear(buf, replies, len), Next(replies);
            var after, status := GetBuffer(buf, r, len), Unsigned16(GetStatus(r, len));
            var t := GetPType(after[0], after[1]);
            if status < 2 then h == Heard(TooShort, status, after, 1)
            else if t == INFORMATION then h == Heard(Arrived, status, after, 1)
            else if t != SYMM then h == Heard(Unexpected, status, after, 1)
            else
              && replies != []
              && if SetOk(Next(Drop(replies, 1)))
                 then h == Hear(after, Drop(replies, 2), len).(used := Hear(after, Drop(replies, 2), len).used + 2)
                 else h == Heard(NotSent, status, after, 2)
  {
    hide GetStatus, GetBuffer, SetOk, GetPType;
    if replies == [] {
      SilenceIsUnexpected(buf, len);
    }
  }

  /** A length, a failure, or a copy that would leave the buffer. */
  datatype ReadEnd = Got(n: nat) | Failed(code: int) | Undefined

  datatype Reading = Reading(end: ReadEnd, buf: seq<Byte>, used: nat)

  /** `n` bytes moved down by `k`. */
  function Shifted(b: seq<Byte>, n: nat, k: nat): (s: seq<Byte>)
    requires n + k <= |b|
    ensures |s| == |b|
  {
    b[k..k + n] + b[n..]
  }

  function ReadPdu(buf: seq<Byte>, replies: seq<Reply>, len: nat): (r: Reading)
    requires 2 <= len <= |buf|
    ensures |r.buf| == |buf|
  {
    var h := Hear(buf, replies, len);
    if h.end != Arrived then Reading(Failed(Code(h.end)), h.buf, h.used)
    else if !SetOk(Next(Drop(replies, h.used))) then Reading(Failed(-2), h.buf, h.used + 1)
    else
      var n := Add8(h.status, -3);
      if n + 3 > |buf| then Reading(Undefined, h.buf, h.used + 1)
      else Reading(Got(n), Shifted(h.buf, n, 3), h.used + 1)
  }

  /** A read that fails with -1 or -3 stops after its own turn; every other end follows a write. */
  lemma ReadPduTurns(buf: seq<Byte>, replies: seq<Reply>, len: nat)
    requires 2 <= len <= |buf|
    ensures var r := ReadPdu(buf, replies, len);
            && r.used >= 1
            && (r.used % 2 == 1 <==> r.end == Failed(-1) || r.end == Failed(-3))
            && (r.end.Failed? ==> -3 <= r.end.code <= -1)
            && (r.end.Got? ==> r.end.n < 256)
  {
    hide Hear, SetOk, Shifted;
  }

  // ----- the layer as the source runs it

  class Connection {
    const pn: Pn532
    var mode: bool
    var ssap: Sap
    var dsap: Sap
    var ns: Byte
    var nr: Byte

    constructor (pn: Pn532)
      ensures this.pn == pn && ns == 0 && nr == 0
    {
      this.pn := pn;
      mode, ssap, dsap, ns, nr := false, 0, 0, 0, 0;
    }

    /** The three-byte header of the next information PDU. */
    ghost function InformationHeader(): seq<Byte>
      reads this
    {
      Header(dsap, INFORMATION, ssap) + [Add8(ns * 16, nr)]
    }

    method WriteSymm() returns (ok: bool)
      requires pn.Valid()
      modifies pn`replies, pn`trace, pn.packet
      ensures ok == SetOk(Next(old(pn.replies)))
      ensures pn.replies == Drop(old(pn.replies), 1)
      ensures pn.trace == old(pn.trace) + [Set(SYMM_COMMAND)]
    {
      var symm := new Byte[2](_ => 0);
      assert symm[..2] == SYMM_PDU;
      assert [TGSETDATA] + SYMM_PDU + [] == SYMM_COMMAND;
      ok := pn.TgSetData(symm, 2, [], false);
    }

    /** Puts a two-byte header into the packet buffer and sends it from there. */
    method SendHeader(h: seq<Byte>, body: seq<Byte>, hasBody: bool) returns (ok: bool)
      requires pn.Valid() && 2 <= |h| <= 3 && (!hasBody ==> body == [])
      modifies pn`replies, pn`trace, pn.packet
      ensures ok == SetOk(Next(old(pn.replies)))
      ensures pn.replies == Drop(old(pn.replies), 1)
      ensures pn.trace == old(pn.trace) + [Set([TGSETDATA] + h + body)]
    {
      MemCpy(pn.packet, 0, h);
      assert pn.packet[..|h|] == h;
      ok := pn.TgSetData(pn.packet, |h|, body, hasBody);
    }

    /** The waiting loop shared by connecting, sending and disconnecting. */
    method Await(wanted: PduType, filler: PduType) returns (end: End)
      requires pn.Valid()
      modifies pn`replies, pn`trace, pn.packet
      ensures var w := WaitFor(old(pn.replies), wanted, filler);
              && end == w.end
              && pn.replies == Drop(old(pn.replies), w.used)
              && pn.trace == old(pn.trace) + Polling(w.used)
              && (end == Arrived ==> pn.packet[..|w.pdu|] == w.pdu)
    {
      hide GetStatus, GetBuffer, SetOk, WaitFor, GetPType, Drop, Polling, Next;
      ghost var w, used := WaitFor(pn.replies, wanted, filler), 0;
      PollingStarts(pn.trace);
      DropShrinks(pn.replies, 0);
      while true
        invariant used % 2 == 0
        invariant w == WaitFor(pn.replies, wanted, filler).(used := used + WaitFor(pn.replies, wanted, filler).used)
        invariant pn.replies == Drop(old(pn.replies), used)
        invariant pn.trace == old(pn.trace) + Polling(used)
        decreases |pn.replies|
      {
        ghost var before, packet := pn.replies, pn.packet[..];
        WaitTurn(before, wanted, filler, packet);
        PollingGrows(used);
        PollingGrows(used + 1);
        DropDrop(old(pn.replies), used, 1);
        DropDrop(old(pn.replies), used, 2);
        DropDrop(before, 1, 1);
        DropShrinks(before, 2);
        var status := pn.TgGetData(pn.packet, HEADER_BUFFER);
        if 2 > status {
          return TooShort;
        }
        var t := GetPType(pn.packet[0], pn.packet[1]);
        if t == wanted {
          return Arrived;
        }
        if t != filler {
          return Unexpected;
        }
        var ok := WriteSymm();
        if !ok {
          return NotSent;
        }
        used := used + 2;
      }
    }

    /** Waits for CONNECT and completes the connection towards the peer's access points. */
    method WaitForConnection() returns (r: int)
      requires pn.Valid()
      modifies this, pn`replies, pn`trace, pn.packet
      ensures mode && ns == 0 && nr == 0
      ensures var w := WaitFor(old(pn.replies), CONNECT, SYMM);
              && (w.end != Arrived ==>
                  && r == Code(w.end) && pn.replies == Drop(old(pn.replies), w.used)
                  && pn.trace == old(pn.trace) + Polling(w.used))
              && (w.end == Arrived ==>
                  && r == (if SetOk(Next(Drop(old(pn.replies), w.used))) then 1 else -2)
                  && pn.replies == Drop(old(pn.replies), w.used + 1)
                  && ssap == GetDsap(w.pdu[0]) && dsap == GetSsap(w.pdu[1])
                  && pn.trace == old(pn.trace) + Polling(w.used) + [Set([TGSETDATA] + Header(dsap, CC, ssap) + [])])
    {
      mode, ns, nr := true, 0, 0;
      ghost var w := WaitFor(pn.replies, CONNECT, SYMM);
      var end := Await(CONNECT, SYMM);
      if end != Arrived {
        return Code(end);
      }
      assert pn.packet[..|w.pdu|][0] == w.pdu[0] && pn.packet[..|w.pdu|][1] == w.pdu[1];
      ssap := GetDsap(pn.packet[0]);
      dsap := GetSsap(pn.packet[1]);
      var ok := SendHeader(Header(dsap, CC, ssap), [], false);
      DropDrop(old(pn.replies), w.used, 1);
      r := if ok then 1 else -2;
    }

    /** "urn:nfc:sn:snep" behind its type and length. */
    const serviceName: seq<Byte> :=
      [0x06, 15, 0x75, 0x72, 0x6E, 0x3A, 0x6E, 0x66, 0x63, 0x3A, 0x73, 0x6E, 0x3A, 0x73, 0x6E, 0x65, 0x70]

    /** Connects to the default access point of the service; success leaves the turn to write. */
    method Connect() returns (r: int)
      requires pn.Valid()
      modifies this, pn`replies, pn`trace, pn.packet
      ensures !mode && dsap == DEFAULT_DSAP && ssap == DEFAULT_SSAP && ns == 0 && nr == 0
      ensures var e := Opening(old(pn.replies), CC, SYMM);
              && r == e.code && pn.replies == Drop(old(pn.replies), e.used)
              && pn.trace == old(pn.trace) + OpeningOps([TGSETDATA] + Header(DEFAULT_DSAP, CONNECT, DEFAULT_SSAP) + serviceName, e.used)
    {
      mode, dsap, ssap, ns, nr := false, DEFAULT_DSAP, DEFAULT_SSAP, 0, 0;
      r := Open(Header(DEFAULT_DSAP, CONNECT, DEFAULT_SSAP), serviceName, true, CC, SYMM);
    }

    /** Disconnects; the final wait stops on CC and answers DM, as the source does. */
    method Disconnect() returns (r: int)
      requires pn.Valid()
      modifies pn`replies, pn`trace, pn.packet
      ensures var e := Opening(old(pn.replies), CC, DM);
              && r == e.code && pn.replies == Drop(old(pn.replies), e.used)
              && pn.trace == old(pn.trace) + OpeningOps([TGSETDATA] + Header(DEFAULT_DSAP, DISC, DEFAULT_SSAP) + [], e.used)
    {
      r := Open(Header(DEFAULT_DSAP, DISC, DEFAULT_SSAP), [], false, CC, DM);
    }

    /** The body common to both. */
    method Open(h: seq<Byte>, body: seq<Byte>, hasBody: bool, wanted: PduType, filler: PduType) returns (r: int)
      requires pn.Valid() && |h| == 2 && (!hasBody ==> body == [])
      modifies pn`replies, pn`trace, pn.packet
      ensures var e := Opening(old(pn.replies), wanted, filler);
              && r == e.code && pn.replies == Drop(old(pn.replies), e.used)
              && pn.trace == old(pn.trace) + OpeningOps([TGSETDATA] + h + body, e.used)
    {
      hide GetStatus, GetBuffer, SetOk, WaitFor, GetPType, Drop, Polling, Next;
      ghost var all, packet := pn.replies, pn.packet[..];
      var status := pn.TgGetData(pn.packet, HEADER_BUFFER);
      if 2 > status {
        return -1;
      }
      TypeInBuffer(packet, Next(all));
      if GetPType(pn.packet[0], pn.packet[1]) != SYMM {
        return -1;
      }
      var ok := SendHeader(h, body, hasBody);
      DropDrop(all, 1, 1);
      ghost var command := [TGSETDATA] + h + body;
      if !ok {
        PollingStarts([Get, Set(command)]);
        assert old(pn.trace) + [Get] + [Set(command)] == old(pn.trace) + [Get, Set(command)];
        return -2;
      }
      ghost var w := WaitFor(pn.replies, wanted, filler);
      var end := Await(wanted, filler);
      DropDrop(all, 2, w.used);
      assert old(pn.trace) + [Get] + [Set(command)] + Polling(w.used) == old(pn.trace) + ([Get, Set(command)] + Polling(w.used));
      r := Code(end);
    }

    /**
     Sends `header` and `body` in an information PDU. The header may lie at the start of the packet
     buffer itself. The connecting side writes at once, the other side first reads.
     */
    method Write(header: array<Byte>, hlen: nat, body: seq<Byte>, hasBody: bool) returns (ok: bool)
      requires pn.Valid() && hlen <= header.Length && (!hasBody ==> body == [])
      modifies this`ns, pn`replies, pn`trace, pn.packet
      ensures var first := if mode then 1 else 0;
              var sent := (mode ==> GetStatus(Next(old(pn.replies)), 3) == 2) && SetOk(Next(Drop(old(pn.replies), first)));
              ns == if hlen + 3 <= HEADER_BUFFER && sent then Add8(old(ns), 1) else old(ns)
      ensures hlen + 3 > HEADER_BUFFER ==> !ok && pn.trace == old(pn.trace) + if mode then [Get] else []
      ensures hlen + 3 <= HEADER_BUFFER ==>
                var e := Sending(mode, old(pn.replies));
                && ok == (e.code == 1) && pn.replies == Drop(old(pn.replies), e.used)
                && pn.trace == old(pn.trace) +
                     SendingOps(mode, [TGSETDATA] + (old(Header(dsap, INFORMATION, ssap) + [Add8(ns * 16, nr)]) + old(header[..hlen])) + body, e.used)
    {
      hide GetStatus, GetBuffer, SetOk, WaitFor, GetPType, Drop, Polling, Next, SendingOps;
      ghost var all, command := pn.replies, [TGSETDATA] + (InformationHeader() + header[..hlen]) + body;
      ghost var start := if mode then 1 else 0;
      SendingOpsStart(mode, command);
      if mode {
        var buf := new Byte[3](_ => 0);
        var status := pn.TgGetData(buf, 3);
        if status != 2 {
          return false;
        }
      } else {
        DropShrinks(all, 0);
      }
      assert pn.trace == old(pn.trace) + SendingOps(mode, command, start);
      if HEADER_BUFFER < hlen + 3 {
        return false;
      }
      ok := SendInformation(header, hlen, body, hasBody);
      DropDrop(all, start, 1);
      assert pn.trace == old(pn.trace) + SendingOps(mode, command, start + 1);
      if !ok {
        return false;
      }
      ns := Add8(ns, 1);
      ghost var w := WaitFor(pn.replies, RR, SYMM);
      var end := Await(RR, SYMM);
      DropDrop(all, start + 1, w.used);
      SendingOpsPoll(mode, command, w.used);
      assert pn.trace == old(pn.trace) + SendingOps(mode, command, start + 1 + w.used);
      if end != Arrived {
        return false;
      }
      ok := WriteSymm();
      DropDrop(all, start + 1 + w.used, 1);
    }

    /** Shifts the header up, puts the PDU header before it and sends both with the body. */
    method SendInformation(header: array<Byte>, hlen: nat, body: seq<Byte>, hasBody: bool) returns (ok: bool)
      requires pn.Valid() && hlen <= header.Length && hlen + 3 <= HEADER_BUFFER && (!hasBody ==> body == [])
      modifies pn`replies, pn`trace, pn.packet
      ensures ok == SetOk(Next(old(pn.replies))) && pn.replies == Drop(old(pn.replies), 1)
      ensures pn.trace == old(pn.trace) + [Set([TGSETDATA] + (InformationHeader() + old(header[..hlen])) + body)]
    {
      ghost var first := header[..hlen];
      ShiftUp(pn.packet, header, hlen, 3);
      assert pn.packet[3..3 + hlen] == first;
      ghost var h := InformationHeader();
      MemCpy(pn.packet, 0, Header(dsap, INFORMATION, ssap) + [Add8(ns * 16, nr)]);
      assert pn.packet[..3 + hlen] == h + first;
      ok := pn.TgSetData(pn.packet, 3 + hlen, body, hasBody);
    }

    /** Receives one information PDU into the caller's buffer, header removed. */
    method Read(buf: array<Byte>, len: nat) returns (end: ReadEnd)
      requires pn.Valid() && buf != pn.packet && 3 <= len == buf.Length < 256
      modifies this, pn`replies, pn`trace, pn.packet, buf
      ensures mode == old(mode) && ns == old(ns)
      ensures var r := ReadPdu(old(buf[..]), old(pn.replies), len);
              && end == r.end && buf[..] == r.buf
              && pn.replies == Drop(old(pn.replies), r.used)
              && |pn.trace| == |old(pn.trace)| + r.used
      ensures old(pn.trace) <= pn.trace && TurnsFrom(pn.trace, |old(pn.trace)|, true)
      ensures nr == if end.Got? then Add8(old(nr), 1) else old(nr)
      ensures Hear(old(buf[..]), old(pn.replies), len).end != Arrived ==> ssap == old(ssap) && dsap == old(dsap)
      ensures var h := Hear(old(buf[..]), old(pn.replies), len);
              h.end == Arrived ==>
                && ssap == GetDsap(h.buf[0]) && dsap == GetSsap(h.buf[1])
                && pn.trace == old(pn.trace) + Polling(h.used)
                               + [Set([TGSETDATA] + (Header(dsap, RR, ssap) + [Add8(h.buf[2] / 16, 1)]) + [])]
    {
      hide GetStatus, GetBuffer, SetOk, Hear, GetPType, Drop, Polling;
      ghost var before, h := pn.trace, Hear(buf[..], pn.replies, len);
      var e, status := Listen(buf, len);
      PollingTurns(before, h.used);
      if e != Arrived {
        return Failed(Code(e));
      }
      var n := Add8(status, -3);
      ssap := GetDsap(buf[0]);
      dsap := GetSsap(buf[1]);
      var ok := SendHeader(Header(dsap, RR, ssap) + [Add8(buf[2] / 16, 1)], [], false);
      DropDrop(old(pn.replies), h.used, 1);
      if !ok {
        return Failed(-2);
      }
      if n + 3 > buf.Length {
        return Undefined;
      }
      ShiftDown(buf, n, 3);
      assert buf[..] == buf[..n] + buf[n..];
      nr := Add8(nr, 1);
      end := Got(n);
    }

    /** The receiving loop. */
    method Listen(buf: array<Byte>, len: nat) returns (end: End, status: nat)
      requires pn.Valid() && buf != pn.packet && 3 <= len == buf.Length
      modifies pn`replies, pn`trace, pn.packet, buf
      ensures var h := Hear(old(buf[..]), old(pn.replies), len);
              && end == h.end && status == h.status && buf[..] == h.buf
              && pn.replies == Drop(old(pn.replies), h.used)
              && pn.trace == old(pn.trace) + Polling(h.used)
    {
      hide GetStatus, GetBuffer, SetOk, Hear, GetPType, Drop, Polling, Next, Unsigned16;
      ghost var h, used := Hear(buf[..], pn.replies, len), 0;
      PollingStarts(pn.trace);
      DropShrinks(pn.replies, 0);
      while true
        invariant used % 2 == 0
        invariant h == Hear(buf[..], pn.replies, len).(used := used + Hear(buf[..], pn.replies, len).used)
        invariant pn.replies == Drop(old(pn.replies), used)
        invariant pn.trace == old(pn.trace) + Polling(used)
        decreases |pn.replies|
      {
        ghost var before := pn.replies;
        HearTurn(buf[..], before, len);
        PollingGrows(used);
        PollingGrows(used + 1);
        DropDrop(old(pn.replies), used, 1);
        DropDrop(old(pn.replies), used, 2);
        DropDrop(before, 1, 1);
        DropShrinks(before, 2);
        var s := pn.TgGetData(buf, len);
        status := Unsigned16(s);
        if 2 > status {
          return TooShort, status;
        }
        var t := GetPType(buf[0], buf[1]);
        if t == INFORMATION {
          return Arrived, status;
        }
        if t != SYMM {
          return Unexpected, status;
        }
        var ok := WriteSymm();
        if !ok {
          return NotSent, status;
        }
        used := used + 2;
      }
    }
  }
}
