/**
 One SNEP exchange in each role over the logical link: the put a writer sends, what a reader makes of
 it, and the turns both take.
 */
module Snep {
  import opened Bytes
  import opened Memory
  import opened Link
  import opened Llcp
  import Frame

  const VERSION: Byte := 0x10
  const PUT: Byte := 0x02
  const SUCCESS: Byte := 0x81

  function PutHeader(length: Byte): seq<Byte> {
    [VERSION, PUT, 0, 0, 0, length]
  }

  /** An information PDU that carries a put: three bytes of link header, six of put header. */
  function PutPdu(dsap: Sap, ssap: Sap, sequence: Byte, payload: seq<Byte>): seq<Byte>
    requires |payload| < 256
  {
    (Header(dsap, INFORMATION, ssap) + [sequence]) + PutHeader(|payload|) + payload
  }

  /** The command that sends it. */
  function PutCommand(dsap: Sap, ssap: Sap, sequence: Byte, payload: seq<Byte>): seq<Byte>
    requires |payload| < 256
  {
    [TGSETDATA] + ((Header(dsap, INFORMATION, ssap) + [sequence]) + PutHeader(|payload|)) + payload
  }

  /** The command that tells the peer that its put was accepted. */
  function SuccessCommand(dsap: Sap, ssap: Sap, sequence: Byte): seq<Byte> {
    [TGSETDATA] + ((Header(dsap, INFORMATION, ssap) + [sequence]) + [VERSION, SUCCESS, 0, 0, 0, 0]) + []
  }

  /** A result code, or behaviour the language does not define. */
  datatype Result = Done(code: int) | Unknown

  // ----- what the reader accepts

  /** Messages that begin four bytes late are moved up before they are checked. */
  function Realigned(buf: seq<Byte>): (r: seq<Byte>)
    requires |buf| >= 6
    ensures |r| == |buf|
  {
    if buf[0] != VERSION && buf[4] == VERSION then Shifted(buf, |buf| - 4, 4) else buf
  }

  datatype Verdict = Verdict(result: Result, buf: seq<Byte>)

  /** The checks on a received message of `status` bytes, and the removal of its header. */
  function Judge(buf: seq<Byte>, status: nat): (v: Verdict)
    requires |buf| >= 6
    ensures |v.buf| == |buf|
    ensures v.result.Done? ==> v.result.code == -4 || v.result.code >= 0
  {
    var b := Realigned(buf);
    if b[0] != VERSION || b[1] != PUT then Verdict(Done(-4), b)
    else
      var length := Word32(b[2], b[3], b[4], b[5]);
      if length > status - 6 then Verdict(Done(-4), b)
      else if length >= 256 || length + 6 > |b| then Verdict(Unknown, b)
      else Verdict(Done(length), Shifted(b, length, 6))
  }

  /** What `SNEP::read` makes of the link read: a failure, stored unsigned, passes for a length. */
  function AsStatus(end: ReadEnd): nat
    requires !end.Undefined?
  {
    match end
    case Got(n) => n
    case Failed(code) => Unsigned16(code)
  }

  /** The result and the buffer after a whole `SNEP::read` on these replies. */
  function ReadPut(buf: seq<Byte>, replies: seq<Reply>): Verdict
    requires 6 <= |buf|
  {
    var w := WaitFor(replies, CONNECT, SYMM);
    if w.end != Arrived || !SetOk(Next(Drop(replies, w.used))) then Verdict(Done(-2), buf)
    else
      var r := ReadPdu(buf, Drop(replies, w.used + 1), |buf|);
      if r.end.Undefined? then Verdict(Unknown, r.buf)
      else if AsStatus(r.end) < 6 then Verdict(Done(-3), r.buf)
      else Judge(r.buf, AsStatus(r.end))
  }

  /** The link read of a `SNEP::read` that gets as far as one, with the buffer it leaves. */
  function LinkRead(buf: seq<Byte>, replies: seq<Reply>): (r: Reading)
    requires 6 <= |buf|
    ensures |r.buf| == |buf|
  {
    var w := WaitFor(replies, CONNECT, SYMM);
    if w.end != Arrived || !SetOk(Next(Drop(replies, w.used))) then Reading(Failed(0), buf, 0)
    else ReadPdu(buf, Drop(replies, w.used + 1), |buf|)
  }

  /** The bytes pass the three checks on a received message of `status` bytes. */
  predicate LooksLikePut(buf: seq<Byte>, status: nat)
    requires 6 <= |buf|
  {
    var b := Realigned(buf);
    b[0] == VERSION && b[1] == PUT && Word32(b[2], b[3], b[4], b[5]) <= status - 6
  }

  /** The link read fails in its own turn, and the bytes it leaves in the buffer pass for a put. */
  predicate TakenForPut(buf: seq<Byte>, replies: seq<Reply>)
    requires 6 <= |buf|
  {
    var r := LinkRead(buf, replies);
    (r.end == Failed(-1) || r.end == Failed(-3)) && LooksLikePut(r.buf, AsStatus(r.end))
  }

  /** The verdict on the answer to a put. */
  function ResponseOf(reading: Reading): Result
    requires |reading.buf| >= 2
  {
    match reading.end
    case Undefined => Unknown
    case Failed(_) => Done(-4)
    case Got(n) => if n < 6 || reading.buf[0] != VERSION || reading.buf[1] != SUCCESS then Done(-4) else Done(1)
  }

  /** The result of a whole `SNEP::write` on these replies. */
  function SendPut(replies: seq<Reply>, stack: seq<Byte>): Result
    requires |stack| == 16
  {
    var e := Opening(replies, CC, SYMM);
    if e.code <= 0 then Done(-2)
    else
      var s := Sending(false, Drop(replies, e.used));
      if s.code == 0 then Done(-3) else ResponseOf(ReadPdu(stack, Drop(replies, e.used + s.used), 16))
  }

  /** The command that disconnects. */
  const DISCONNECT: seq<Byte> := [TGSETDATA] + Header(DEFAULT_DSAP, DISC, DEFAULT_SSAP) + []

  /** After `used` replies and the response, the rest of the trace is a disconnection. */
  ghost predicate Disconnected(replies: seq<Reply>, used: nat, stack: seq<Byte>, trace: seq<Op>)
    requires |stack| == 16
  {
    var at := used + ReadPdu(stack, Drop(replies, used), 16).used;
    at <= |trace| && trace[at..] == OpeningOps(DISCONNECT, Opening(Drop(replies, at), CC, DM).used)
  }

  // ----- the layer as the source runs it

  class Session {
    const pn: Pn532
    const link: Connection

    ghost predicate Valid()
      reads this
    {
      link.pn == pn && pn.Valid()
    }

    constructor (pn: Pn532)
      requires pn.Valid()
      ensures Valid() && this.pn == pn && fresh(link)
    {
      this.pn := pn;
      link := new Connection(pn);
    }

    /**
     Sends one put; `stack` is what the response buffer happens to hold. In every run the link
     operations take turns from the first read on, and once a connection stands the next operation
     is the command that carries the put, headers first, whatever the buffers held.
     */
    method Write(buf: seq<Byte>, activated: bool, stack: seq<Byte>) returns (r: Result)
      requires Valid() && |buf| < 256 && pn.trace == [] && |stack| == 16
      modifies link, pn`replies, pn`trace, pn.packet
      ensures Alternates(pn.trace)
      ensures r == if activated then SendPut(old(pn.replies), stack) else Done(-1)
      ensures var e := Opening(old(pn.replies), CC, SYMM);
              activated && e.code == 1 ==>
                |pn.trace| > e.used && pn.trace[e.used] == Set(PutCommand(DEFAULT_DSAP, DEFAULT_SSAP, 0, buf))
      ensures activated && r == Done(1) ==>
                var e := Opening(old(pn.replies), CC, SYMM);
                var s := Sending(false, Drop(old(pn.replies), e.used));
                Disconnected(old(pn.replies), e.used + s.used, stack, pn.trace)
    {
      hide TurnsFrom, GetStatus, SetOk, Drop, Polling, ReadPdu, Hear, Opening, Sending, SendingOps, OpeningOps;
      ghost var all := pn.replies;
      if !activated {
        NoTurns(pn.trace, true);
        return Done(-1);
      }
      var c := link.Connect();
      ghost var e, t0 := Opening(all, CC, SYMM), pn.trace;
      TurnsAfter([], t0, true);
      if 0 >= c {
        return Done(-2);
      }
      MemCpy(pn.packet, 0, PutHeader(|buf|));
      assert pn.packet[..6] == PutHeader(|buf|);
      ghost var h := link.InformationHeader();
      assert h == Header(DEFAULT_DSAP, INFORMATION, DEFAULT_SSAP) + [0];
      var ok := link.Write(pn.packet, 6, buf, true);
      ghost var s, command := Sending(false, Drop(all, e.used)), PutCommand(DEFAULT_DSAP, DEFAULT_SSAP, 0, buf);
      assert pn.trace == t0 + SendingOps(false, command, s.used);
      TurnsAfter(t0, pn.trace, false);
      Resume(pn.trace, t0, true);
      FirstSent(command, s.used);
      DropDrop(all, e.used, s.used);
      if !ok {
        return Done(-3);
      }
      ghost var read := ReadPdu(stack, pn.replies, 16).used;
      DropDrop(all, e.used + s.used, read);
      r := Conclude(stack);
    }

    /** Reads the response and, if it is a success, disconnects. */
    method Conclude(stack: seq<Byte>) returns (r: Result)
      requires Valid() && Alternates(pn.trace) && |pn.trace| % 2 == 0 && |stack| == 16
      modifies link, pn`replies, pn`trace, pn.packet
      ensures old(pn.trace) <= pn.trace && Alternates(pn.trace)
      ensures r == ResponseOf(ReadPdu(stack, old(pn.replies), 16))
      ensures var read := ReadPdu(stack, old(pn.replies), 16).used;
              && (r != Done(1) ==> |pn.trace| == |old(pn.trace)| + read)
              && (r == Done(1) ==>
                  var e := Opening(Drop(old(pn.replies), read), CC, DM);
                  && |pn.trace| == |old(pn.trace)| + read + e.used
                  && pn.trace[|old(pn.trace)| + read..] == OpeningOps(DISCONNECT, e.used))
    {
      hide TurnsFrom, GetStatus, SetOk, Drop, Polling, ReadPdu, Hear, Opening, OpeningOps;
      var rbuf := new Byte[16](i requires 0 <= i < 16 => stack[i]);
      assert rbuf[..] == stack;
      ghost var t1, reading := pn.trace, ReadPdu(stack, pn.replies, 16);
      ReadPduTurns(stack, pn.replies, 16);
      var end := link.Read(rbuf, 16);
      Resume(pn.trace, t1, true);
      if end.Undefined? {
        return Unknown;
      }
      if end.Failed? || 6 > end.n {
        return Done(-4);
      }
      if rbuf[0] != VERSION || rbuf[1] != SUCCESS {
        return Done(-4);
      }
      ghost var t2 := pn.trace;
      var _ := link.Disconnect();
      assert pn.trace[|t2|..] == OpeningOps(DISCONNECT, Opening(Drop(old(pn.replies), reading.used), CC, DM).used);
      TurnsAfter(t2, pn.trace, true);
      Resume(pn.trace, t2, true);
      r := Done(1);
    }

    /**
     Receives one put into the caller's buffer. A run that ends takes turns unless the link read
     fails in its own turn, with -1 or -3, and leaves bytes that pass for a put: then the answer
     begins with a second read in a row. A run that leaves the buffer while it removes the header
     ends here; its answer would break the turns in exactly the same case.
     */
    method Read(buf: array<Byte>, activated: bool) returns (r: Result)
      requires Valid() && pn.trace == [] && buf != pn.packet && 6 <= buf.Length < 256
      modifies link, pn`replies, pn`trace, pn.packet, buf
      ensures !activated ==> r == Done(-1) && pn.trace == []
      ensures activated ==> Verdict(r, buf[..]) == ReadPut(old(buf[..]), old(pn.replies))
      ensures activated && r.Done? ==> (Alternates(pn.trace) <==> !TakenForPut(old(buf[..]), old(pn.replies)))
      ensures activated && r.Unknown? ==>
                && Alternates(pn.trace)
                && (Alternates(pn.trace + [Get]) <==> !TakenForPut(old(buf[..]), old(pn.replies)))
      ensures activated && r.Done? && r.code >= 0 ==>
                var read := LinkRead(old(buf[..]), old(pn.replies));
                var at := WaitFor(old(pn.replies), CONNECT, SYMM).used + 1 + read.used;
                && at <= |pn.trace|
                && pn.trace[at..] == SendingOps(true, SuccessCommand(link.dsap, link.ssap, if read.end.Got? then 1 else 0),
                                                Sending(true, Drop(old(pn.replies), at)).used)
    {
      hide TurnsFrom, GetStatus, SetOk, Drop, Polling, ReadPdu, Hear, WaitFor, Judge, Sending, SendingOps, LooksLikePut;
      if !activated {
        return Done(-1);
      }
      ghost var first, w := pn.replies, WaitFor(pn.replies, CONNECT, SYMM);
      var c := link.WaitForConnection();
      ReaderOpens(w, pn.trace);
      if 0 >= c {
        return Done(-2);
      }
      ghost var t1 := pn.trace;
      ReadPduTurns(buf[..], pn.replies, buf.Length);
      var end := link.Read(buf, buf.Length);
      Resume(pn.trace, t1, true);
      OneMoreRead(pn.trace);
      if end.Undefined? {
        return Unknown;
      }
      var status := AsStatus(end);
      if 6 > status {
        return Done(-3);
      }
      assert ReadPut(old(buf[..]), first) == Judge(buf[..], status);
      JudgePassesPuts(buf[..], status);
      r := Take(buf, status);
      if r.Done? && r.code >= 0 {
        ghost var t2, read := pn.trace, LinkRead(old(buf[..]), first);
        DropDrop(first, w.used + 1, read.used);
        Acknowledge();
        assert pn.trace[|t2|..] == SendingOps(true, SuccessCommand(link.dsap, link.ssap, if read.end.Got? then 1 else 0),
                                              Sending(true, Drop(first, w.used + 1 + read.used)).used);
      }
    }

    /** Answers a put that was accepted. */
    method Acknowledge()
      requires Valid() && link.mode && Alternates(pn.trace)
      modifies link`ns, pn`replies, pn`trace, pn.packet
      ensures Valid()
      ensures Alternates(pn.trace) <==> |old(pn.trace)| % 2 == 0
      ensures pn.trace == old(pn.trace) + SendingOps(true, SuccessCommand(link.dsap, link.ssap, old(Add8(link.ns * 16, link.nr))),
                                                     Sending(true, old(pn.replies)).used)
    {
      hide TurnsFrom, GetStatus, SetOk, Drop, Polling, Sending, SendingOps;
      ghost var before := pn.trace;
      MemCpy(pn.packet, 0, [VERSION, SUCCESS, 0, 0, 0, 0]);
      assert pn.packet[..6] == [VERSION, SUCCESS, 0, 0, 0, 0];
      var _ := link.Write(pn.packet, 6, [], false);
      TurnsAfter(before, pn.trace, true);
      if |before| % 2 == 0 {
        Resume(pn.trace, before, true);
      } else {
        TwoReads(pn.trace, before);
      }
    }

    /** Moves up a message that begins four bytes late. */
    method Realign(buf: array<Byte>)
      requires buf.Length >= 6
      modifies buf
      ensures buf[..] == Realigned(old(buf[..]))
    {
      if buf[0] != VERSION && buf[4] == VERSION {
        ShiftDown(buf, buf.Length - 4, 4);
        assert buf[..] == buf[..buf.Length - 4] + buf[buf.Length - 4..];
      }
    }

    /** The checks and the in-place removal of the header. */
    method Take(buf: array<Byte>, status: nat) returns (r: Result)
      requires buf.Length >= 6
      modifies buf
      ensures Verdict(r, buf[..]) == Judge(old(buf[..]), status)
    {
      hide Realigned, Word32;
      Realign(buf);
      ghost var b := buf[..];
      assert b[0] == buf[0] && b[1] == buf[1];
      if buf[0] != VERSION {
        return Done(-4);
      }
      if buf[1] != PUT {
        return Done(-4);
      }
      var length := Word32(buf[2], buf[3], buf[4], buf[5]);
      assert length == Word32(b[2], b[3], b[4], b[5]);
      if length > status - 6 {
        return Done(-4);
      }
      if length >= 256 || length + 6 > buf.Length {
        return Unknown;
      }
      Word32IsNat(buf[2], buf[3], buf[4], buf[5]);
      ShiftDown(buf, length, 6);
      assert buf[..] == buf[..length] + buf[length..];
      r := Done(length);
    }
  }

  /** Operations that take turns among themselves take turns where they are appended. */
  lemma TurnsAfter(before: seq<Op>, trace: seq<Op>, read: bool)
    requires before <= trace && TurnsFrom(trace[|before|..], 0, read)
    ensures TurnsFrom(trace, |before|, read)
  {
    forall i | |before| <= i < |trace|
      ensures trace[i].Get? <==> ((i - |before|) % 2 == 0) == read
    {
      assert trace[i] == trace[|before|..][i - |before|];
    }
  }

  lemma FirstSent(command: seq<Byte>, used: nat)
    requires used >= 1
    ensures SendingOps(false, command, used)[0] == Set(command)
  {
  }

  /** How a reader's trace begins. */
  lemma ReaderOpens(w: Wait, trace: seq<Op>)
    requires w.used >= 1 && (w.used % 2 == 0 <==> w.end == NotSent)
    requires trace == [] + Polling(w.used) || (w.end == Arrived && exists c :: trace == [] + Polling(w.used) + [Set(c)])
    ensures Alternates(trace)
    ensures |trace| == w.used + 1 ==> |trace| % 2 == 0
  {
    hide Polling, TurnsFrom;
    PollingTurns([], w.used);
    if trace != [] + Polling(w.used) {
      var c :| trace == [] + Polling(w.used) + [Set(c)];
      TurnsGrow([] + Polling(w.used), 0, true, Set(c));
    }
  }

  /** A read where a write was due breaks the turns for good. */
  lemma TwoReads(trace: seq<Op>, before: seq<Op>)
    requires before < trace && |before| % 2 == 1 && TurnsFrom(trace, |before|, true)
    ensures !Alternates(trace)
  {
    assert trace[|before|].Get? && (|before| - 0) % 2 != 0;
  }

  /** After turns that are complete a read is in turn; after a read it is not. */
  lemma OneMoreRead(trace: seq<Op>)
    requires Alternates(trace)
    ensures Alternates(trace + [Get]) <==> |trace| % 2 == 0
  {
    var longer := trace + [Get];
    if |trace| % 2 == 1 {
      assert longer[|trace|].Get? && (|trace| - 0) % 2 != 0;
    } else {
      TurnsGrow(trace, 0, true, Get);
    }
  }

  /** Exactly the bytes that pass the checks are not refused. */
  lemma JudgePassesPuts(buf: seq<Byte>, status: nat)
    requires |buf| >= 6
    ensures LooksLikePut(buf, status) <==> Judge(buf, status).result != Done(-4)
    ensures LooksLikePut(buf, status) <==> Judge(buf, status).result.Unknown? || Judge(buf, status).result.code >= 0
  {
    hide Word32, Realigned, Shifted;
    var b := Realigned(buf);
    Word32IsNat(b[2], b[3], b[4], b[5]);
  }

  /** A trace that takes turns and is continued by the layer whose turn it is takes turns. */
  lemma Resume(trace: seq<Op>, before: seq<Op>, read: bool)
    requires before <= trace && TurnsFrom(before, 0, read)
    requires TurnsFrom(trace, |before|, if |before| % 2 == 0 then read else !read)
    ensures TurnsFrom(trace, 0, read)
  {
    hide TurnsFrom;
    assert trace[..|before|] == before;
    TurnsJoin(trace, 0, |before|, read);
  }

  // ----- layering

  /** The command is the command byte and the PDU, with nothing between the layers. */
  lemma CommandIsPdu(dsap: Sap, ssap: Sap, sequence: Byte, payload: seq<Byte>)
    requires |payload| < 256
    ensures PutCommand(dsap, ssap, sequence, payload) == [TGSETDATA] + PutPdu(dsap, ssap, sequence, payload)
    ensures |PutPdu(dsap, ssap, sequence, payload)| == |payload| + 9
  {
  }

  /** The frame that carries a put has a true length byte exactly up to 244 payload bytes. */
  lemma PutFrameLength(dsap: Sap, ssap: Sap, sequence: Byte, payload: seq<Byte>)
    requires |payload| < 256
    ensures var command := PutCommand(dsap, ssap, sequence, payload);
            Frame.Build(Frame.HOST_TO_PN532, command)[3] == |command| + 1 <==> |payload| <= 244
  {
    hide Frame.Build;
    CommandIsPdu(dsap, ssap, sequence, payload);
    Frame.LengthByteIsTrueIff(Frame.HOST_TO_PN532, PutCommand(dsap, ssap, sequence, payload));
  }

  // ----- a run that breaks the turns

  const CONNECTED_THEN_EMPTY: seq<Reply> := [Data([0] + Header(0x04, CONNECT, 0x20)), Data([0]), Data([0])]
  const STALE_BUFFER: seq<Byte> := [0, 0, 0, 0, VERSION, PUT, 0, 0, 0, 0, 0, 0]
  const LONG_STALE_BUFFER: seq<Byte> := [0, 0, 0, 0, VERSION, PUT, 0, 0, 0, 100, 0, 0]

  /** An empty link read over a buffer that still holds an old put, four bytes in. */
  lemma StaleBufferCanBeAccepted()
    ensures TakenForPut(STALE_BUFFER, CONNECTED_THEN_EMPTY)
    ensures ReadPut(STALE_BUFFER, CONNECTED_THEN_EMPTY).result == Done(0)
  {
    hide Judge, LooksLikePut, ReadPdu, WaitFor;
    StaleRead(STALE_BUFFER);
    LateEmptyPut(STALE_BUFFER, 0xFFFF);
    JudgePassesPuts(STALE_BUFFER, 0xFFFF);
  }

  /** The same with an old put longer than the buffer: its removal leaves the buffer. */
  lemma StaleBufferCanBeOverrun()
    ensures TakenForPut(LONG_STALE_BUFFER, CONNECTED_THEN_EMPTY)
    ensures ReadPut(LONG_STALE_BUFFER, CONNECTED_THEN_EMPTY).result == Unknown
  {
    hide ReadPdu, WaitFor, Realigned;
    StaleRead(LONG_STALE_BUFFER);
    RealignedFields(LONG_STALE_BUFFER);
  }

  /** A reader connected and given an empty PDU fails with -1, stored as 65535, and keeps its buffer. */
  lemma StaleRead(buf: seq<Byte>)
    requires 6 <= |buf| && buf[0] == 0
    ensures LinkRead(buf, CONNECTED_THEN_EMPTY) == Reading(Failed(-1), buf, 1)
    ensures AsStatus(Failed(-1)) == 0xFFFF
    ensures ReadPut(buf, CONNECTED_THEN_EMPTY) == Judge(buf, 0xFFFF)
  {
    hide Judge, ReadPdu, WaitFor;
    ConnectArrives();
    EmptyReadFails(buf);
    assert Drop(CONNECTED_THEN_EMPTY, 2) == [Data([0])];
  }

  lemma ConnectArrives()
    ensures var w := WaitFor(CONNECTED_THEN_EMPTY, CONNECT, SYMM); w.end == Arrived && w.used == 1
  {
    hide WaitFor, GetPType, Header;
    var connect := Header(0x04, CONNECT, 0x20);
    HeaderRoundTrip(0x04, CONNECT, 0x20);
    assert |connect| == 2 by { HeaderLength(0x04, CONNECT, 0x20); }
    WaitSkipsSymm(CONNECTED_THEN_EMPTY, 0, connect, CONNECT);
  }

  lemma HeaderLength(dsap: Sap, t: PduType, ssap: Sap)
    ensures |Header(dsap, t, ssap)| == 2
  {
  }

  lemma EmptyReadFails(buf: seq<Byte>)
    requires 6 <= |buf| && buf[0] == 0
    ensures ReadPdu(buf, [Data([0])], |buf|) == Reading(Failed(-1), buf, 1)
  {
    hide GetPType;
    assert GetBuffer(buf, Data([0]), |buf|) == buf;
    assert Hear(buf, [Data([0])], |buf|) == Heard(TooShort, 0, buf, 1);
  }

  /** An empty put, four bytes in. */
  lemma LateEmptyPut(buf: seq<Byte>, status: nat)
    requires |buf| >= 10 && status >= 6 && buf[0] != VERSION && buf[4] == VERSION && buf[5] == PUT
    requires buf[6] == 0 && buf[7] == 0 && buf[8] == 0 && buf[9] == 0
    ensures Judge(buf, status).result == Done(0)
  {
    hide *;
    RealignedFields(buf);
    NoLength(buf[6]);
    JudgeByFields(buf, Realigned(buf), status, 0);
  }

  lemma RealignedFields(buf: seq<Byte>)
    requires |buf| >= 10 && buf[0] != VERSION && buf[4] == VERSION
    ensures var b := Realigned(buf);
            && b[0] == buf[4] && b[1] == buf[5]
            && Word32(b[2], b[3], b[4], b[5]) == Word32(buf[6], buf[7], buf[8], buf[9])
  {
  }

  lemma NoLength(b: Byte)
    requires b == 0
    ensures Word32(b, b, b, b) == 0
  {
  }

  lemma JudgeByFields(buf: seq<Byte>, b: seq<Byte>, status: nat, length: nat)
    requires |buf| >= 6 && b == Realigned(buf) && b[0] == VERSION && b[1] == PUT
    requires Word32(b[2], b[3], b[4], b[5]) == length <= status - 6 && length < 256 && length + 6 <= |b|
    ensures Judge(buf, status) == Verdict(Done(length), Shifted(b, length, 6))
  {
    hide Realigned, Shifted, Word32;
  }

  // ----- the put comes through

  predicate IsSymm(r: Reply, limit: nat) {
    r.Data? && 3 <= |r.bytes| <= limit && r.bytes[0] == 0 && GetPType(r.bytes[1], r.bytes[2]) == SYMM
  }

  /** The replies begin with `m` SYMM PDUs, each answered. */
  predicate Idle(replies: seq<Reply>, m: nat, limit: nat) {
    m == 0 || (|replies| >= 2 && IsSymm(replies[0], limit) && SetOk(replies[1]) && Idle(replies[2..], m - 1, limit))
  }

  /** After `m` of them comes a PDU of type `t`. */
  predicate Arrives(replies: seq<Reply>, m: nat, pdu: seq<Byte>, t: PduType, limit: nat) {
    && |replies| > 2 * m
    && Idle(replies, m, limit)
    && 2 <= |pdu| < limit && GetPType(pdu[0], pdu[1]) == t
    && replies[2 * m] == Data([0] + pdu)
  }

  /** And what is written after it is accepted. */
  predicate Delivers(replies: seq<Reply>, m: nat, pdu: seq<Byte>, t: PduType, limit: nat) {
    && |replies| > 2 * m + 1
    && Arrives(replies, m, pdu, t, limit)
    && SetOk(replies[2 * m + 1])
  }

  lemma ArrivesLater(replies: seq<Reply>, m: nat, pdu: seq<Byte>, t: PduType, limit: nat)
    requires Arrives(replies, m, pdu, t, limit) && m > 0
    ensures |replies| >= 2 && Arrives(replies[2..], m - 1, pdu, t, limit)
  {
    hide GetPType, SetOk, IsSymm;
  }

  lemma DeliversLater(replies: seq<Reply>, m: nat, pdu: seq<Byte>, t: PduType, limit: nat)
    requires Delivers(replies, m, pdu, t, limit) && m > 0
    ensures |replies| >= 2 && Delivers(replies[2..], m - 1, pdu, t, limit)
  {
    hide GetPType, SetOk, IsSymm;
    ArrivesLater(replies, m, pdu, t, limit);
  }

  /** Any number of SYMM PDUs before the wanted one only adds turns. */
  lemma {:induction false} WaitSkipsSymm(replies: seq<Reply>, m: nat, pdu: seq<Byte>, t: PduType)
    requires Arrives(replies, m, pdu, t, HEADER_BUFFER) && t != SYMM
    ensures WaitFor(replies, t, SYMM) == Wait(Arrived, pdu, 2 * m + 1)
  {
    hide SetOk, GetPType;
    if m == 0 {
      assert ([0] + pdu)[1..] == pdu;
    } else {
      assert replies[0].bytes[1..][0] == replies[0].bytes[1] && replies[0].bytes[1..][1] == replies[0].bytes[2];
      ArrivesLater(replies, m, pdu, t, HEADER_BUFFER);
      WaitSkipsSymm(replies[2..], m - 1, pdu, t);
    }
  }

  lemma {:induction false} HearSkipsSymm(buf: seq<Byte>, replies: seq<Reply>, m: nat, pdu: seq<Byte>)
    requires 2 <= |buf| < 0x10000 && Delivers(replies, m, pdu, INFORMATION, |buf|)
    ensures var h := Hear(buf, replies, |buf|);
            h.end == Arrived && h.status == |pdu| && h.used == 2 * m + 1 && h.buf[..|pdu|] == pdu
    decreases m
  {
    hide SetOk, GetPType, GetBuffer, GetStatus, Delivers;
    HearTurn(buf, replies, |buf|);
    DeliversNext(replies, m, pdu, |buf|);
    var r := Next(replies);
    GetDelivers(buf, r, |buf|);
    var after := GetBuffer(buf, r, |buf|);
    var got := r.bytes[1..];
    assert after[..|got|] == got;
    assert after[0] == after[..|got|][0] && after[1] == after[..|got|][1];
    if m == 0 {
      assert got == pdu;
    } else {
      DeliversLater(replies, m, pdu, INFORMATION, |buf|);
      HearSkipsSymm(after, replies[2..], m - 1, pdu);
    }
  }

  lemma DeliversNext(replies: seq<Reply>, m: nat, pdu: seq<Byte>, limit: nat)
    requires limit < 0x10000 && Delivers(replies, m, pdu, INFORMATION, limit)
    ensures var r := Next(replies);
            && GetStatus(r, limit) >= 2 && Unsigned16(GetStatus(r, limit)) == GetStatus(r, limit)
            && r.Data? && |r.bytes| >= 3 && GetStatus(r, limit) == |r.bytes| - 1
            && GetPType(r.bytes[1], r.bytes[2]) == (if m == 0 then INFORMATION else SYMM)
            && (m == 0 ==> r.bytes[1..] == pdu)
            && (m > 0 ==> SetOk(Next(Drop(replies, 1))) && Drop(replies, 2) == replies[2..])
  {
    hide SetOk, GetPType;
    if m == 0 {
      assert ([0] + pdu)[1..] == pdu;
    }
  }

  /**
   Round trip: what `Write` sends as a put, delivered after a connection with any number of SYMM PDUs
   before each, is what `Read` leaves at the start of a buffer with room for it.
   */
  lemma PutRoundTrip(buf: seq<Byte>, replies: seq<Reply>, m: nat, connect: seq<Byte>,
                     m': nat, dsap: Sap, ssap: Sap, sequence: Byte, payload: seq<Byte>)
    requires |payload| + 10 <= |buf| < 256
    requires Delivers(replies, m, connect, CONNECT, HEADER_BUFFER)
    requires Delivers(replies[2 * m + 2..], m', PutPdu(dsap, ssap, sequence, payload), INFORMATION, |buf|)
    ensures var v := ReadPut(buf, replies);
            v.result == Done(|payload|) && v.buf[..|payload|] == payload
  {
    hide SetOk, GetPType, WaitFor, Hear, Judge, PutPdu;
    var rest, pdu := replies[2 * m + 2..], PutPdu(dsap, ssap, sequence, payload);
    WaitSkipsSymm(replies, m, connect, CONNECT);
    HearSkipsSymm(buf, rest, m', pdu);
    var h := Hear(buf, rest, |buf|);
    CommandIsPdu(dsap, ssap, sequence, payload);
    assert Next(Drop(replies, 2 * m + 1)) == replies[2 * m + 1];
    assert Next(Drop(rest, 2 * m' + 1)) == rest[2 * m' + 1];
    assert Add8(|pdu|, -3) == |payload| + 6;
    assert ReadPdu(buf, rest, |buf|) == Reading(Got(|payload| + 6), Shifted(h.buf, |payload| + 6, 3), 2 * m' + 2);
    JudgePut(h.buf, dsap, ssap, sequence, payload);
  }

  lemma JudgePut(b: seq<Byte>, dsap: Sap, ssap: Sap, sequence: Byte, payload: seq<Byte>)
    requires |payload| < 250 && |payload| + 10 <= |b| && b[..|payload| + 9] == PutPdu(dsap, ssap, sequence, payload)
    ensures var v := Judge(Shifted(b, |payload| + 6, 3), |payload| + 6);
            v.result == Done(|payload|) && v.buf[..|payload|] == payload
  {
    hide Judge, Word32, Header;
    var n := |payload|;
    var c := Shifted(b, n + 6, 3);
    HeaderLength(dsap, INFORMATION, ssap);
    assert c[..n + 6] == b[3..n + 9] == b[..n + 9][3..] == PutHeader(n) + payload;
    PutFields(c, payload);
    JudgeByFields(c, c, n + 6, n);
    assert Shifted(c, n, 6)[..n] == c[6..6 + n];
  }

  lemma PutFields(c: seq<Byte>, payload: seq<Byte>)
    requires |payload| < 250 && |payload| + 6 <= |c| && c[..|payload| + 6] == PutHeader(|payload|) + payload
    ensures c[0] == VERSION && c[1] == PUT && Word32(c[2], c[3], c[4], c[5]) == |payload|
    ensures c[6..6 + |payload|] == payload
  {
    var h := PutHeader(|payload|) + payload;
    assert c[0] == h[0] && c[1] == h[1] && c[2] == h[2] && c[3] == h[3] && c[4] == h[4] && c[5] == h[5];
    assert c[6..6 + |payload|] == c[..|payload| + 6][6..];
  }

  lemma Word32IsNat(a: Byte, b: Byte, c: Byte, d: Byte)
    ensures Word32(a, b, c, d) >= 0
  {
  }
}
