/**
 Whole conversations on the logical link, told by what the peer does: when waiting, connecting,
 sending and a whole put succeed, and how they fail.
 */
module Dialogue {
  import opened Bytes
  import opened Memory
  import opened Link
  import opened Llcp
  import opened Snep

  // ----- what single replies and PDUs mean

  /** A write is accepted exactly if the chip answers with a zero status byte and no more than fits. */
  lemma AcceptedIff(r: Reply)
    ensures SetOk(r) <==> exists rest: seq<Byte> :: |rest| < 64 && r == Data([0] + rest)
  {
    if SetOk(r) {
      assert r == Data([0] + r.bytes[1..]);
    }
  }

  /** What a read returns: the length without the status byte, or why there is none. */
  lemma StatusOf(len: nat, rest: seq<Byte>, b: Byte)
    ensures |rest| < len ==> GetStatus(Data([0] + rest), len) == |rest|
    ensures b != 0 && |rest| < len ==> GetStatus(Data([b] + rest), len) == -5
    ensures |rest| >= len ==> GetStatus(Data([b] + rest), len) == -4
    ensures GetStatus(Data([]), len) == 0
    ensures GetStatus(Refused, len) == -1
  {
  }

  /** What a read that fails leaves in the buffer: the command byte alone, or behind it what came. */
  lemma BufferOf(buf: seq<Byte>, len: nat, status: Negative, junk: seq<Byte>, b: Byte)
    requires 1 <= len <= |buf|
    ensures GetBuffer(buf, Refused, len) == [0x86] + buf[1..]
    ensures |junk| <= len ==> GetBuffer(buf, Broken(status, junk), len)[..|junk|] == junk
    ensures b != 0 && |junk| < len ==> GetBuffer(buf, Data([b] + junk), len)[..|junk| + 1] == [b] + junk
    ensures |junk| >= len ==> GetBuffer(buf, Data([b] + junk), len) == [0x86] + buf[1..]
    ensures GetBuffer(buf, Data([]), len) == [0x86] + buf[1..]
  {
    hide Splice;
    assert buf[0 := 0x86] == [0x86] + buf[1..];
    if |junk| <= len {
      SplicePrefix(buf[0 := 0x86], junk);
    }
    if |junk| < len {
      SplicePrefix(buf[0 := 0x86], [b] + junk);
    }
  }

  lemma SplicePrefix(d: seq<Byte>, s: seq<Byte>)
    requires |s| <= |d|
    ensures Splice(d, 0, s)[..|s|] == s
  {
  }

  /** The headers of section 4.3 of LLCP 1.1, as they go over the air: CONNECT, DISC, CC, DM, I, RR. */
  lemma KnownHeaders()
    ensures Header(4, 4, 32) == [0x11, 0x20]
    ensures Header(4, 5, 32) == [0x11, 0x60]
    ensures Header(32, 6, 4) == [0x81, 0x84]
    ensures Header(32, 7, 4) == [0x81, 0xC4]
    ensures Header(4, 12, 32) == [0x13, 0x20]
    ensures Header(4, 13, 32) == [0x13, 0x60]
    ensures Header(0, 0, 0) == [0, 0]
  {
  }

  lemma KnownTypes()
    ensures (SYMM, CONNECT, DISC, CC, DM, INFORMATION, RR) == (0, 4, 5, 6, 7, 12, 13)
  {
  }

  /** A put as it goes over the air, and the answer that accepts it. */
  lemma KnownPut(payload: seq<Byte>)
    requires |payload| < 256
    ensures PutPdu(4, 32, 0, payload) == [0x13, 0x20, 0x00, 0x10, 0x02, 0, 0, 0, |payload|] + payload
    ensures SuccessCommand(4, 32, 1) == [0x8E, 0x13, 0x20, 0x01, 0x10, 0x81, 0, 0, 0, 0]
  {
    KnownHeaders();
    hide Header;
    assert Header(4, INFORMATION, 32) == [0x13, 0x20];
  }

  // ----- waiting

  /** The reply read after `m` SYMM PDUs, each answered. */
  function Reached(replies: seq<Reply>, m: nat): Reply {
    Next(Drop(replies, 2 * m))
  }

  lemma ReachedLater(replies: seq<Reply>, m: nat)
    requires m > 0 && |replies| >= 2
    ensures Reached(replies, m) == Reached(replies[2..], m - 1)
    ensures Next(Drop(replies, 2 * m + 1)) == Next(Drop(replies[2..], 2 * (m - 1) + 1))
  {
  }

  lemma SymmIsSkipped(replies: seq<Reply>, t: PduType, m: nat)
    requires Idle(replies, m, HEADER_BUFFER) && m > 0 && t != SYMM
    ensures |replies| >= 2 && Idle(replies[2..], m - 1, HEADER_BUFFER)
    ensures var w := WaitFor(replies[2..], t, SYMM); WaitFor(replies, t, SYMM) == w.(used := w.used + 2)
  {
    hide SetOk, GetPType;
    var r := replies[0];
    assert r.bytes[1..][0] == r.bytes[1] && r.bytes[1..][1] == r.bytes[2];
    assert Drop(replies, 2) == replies[2..] && Drop(replies, 1) == replies[1..];
  }

  lemma WaitEndsAtOnce(replies: seq<Reply>, t: PduType)
    requires t != SYMM
    ensures Reached(replies, 0) == Next(replies)
    ensures var r, w := Next(replies), WaitFor(replies, t, SYMM);
            if GetStatus(r, HEADER_BUFFER) < 2 then w == Wait(TooShort, [], 1)
            else
              var other := GetPType(r.bytes[1], r.bytes[2]);
              && (other != t && other != SYMM ==> w == Wait(Unexpected, [], 1))
              && (other == SYMM && !SetOk(Next(Drop(replies, 1))) ==> w == Wait(NotSent, [], 2))
  {
    hide SetOk, GetPType;
    var r := Next(replies);
    if GetStatus(r, HEADER_BUFFER) >= 2 {
      assert r.bytes[1..][0] == r.bytes[1] && r.bytes[1..][1] == r.bytes[2];
    }
  }

  /** How a wait ends that does not end with the wanted PDU. */
  lemma {:induction false} WaitFails(replies: seq<Reply>, m: nat, t: PduType)
    requires Idle(replies, m, HEADER_BUFFER) && t != SYMM
    ensures var r, w := Reached(replies, m), WaitFor(replies, t, SYMM);
            if GetStatus(r, HEADER_BUFFER) < 2 then w == Wait(TooShort, [], 2 * m + 1)
            else
              var other := GetPType(r.bytes[1], r.bytes[2]);
              && (other != t && other != SYMM ==> w == Wait(Unexpected, [], 2 * m + 1))
              && (other == SYMM && !SetOk(Next(Drop(replies, 2 * m + 1))) ==> w == Wait(NotSent, [], 2 * m + 2))
  {
    hide SetOk, GetPType;
    if m == 0 {
      WaitEndsAtOnce(replies, t);
    } else {
      hide Reached, GetStatus;
      ReachedLater(replies, m);
      SymmIsSkipped(replies, t, m);
      WaitFails(replies[2..], m - 1, t);
    }
  }

  /** A wait that ends with the wanted PDU had only answered SYMM PDUs before it. */
  lemma {:induction false} WaitArrives(replies: seq<Reply>, t: PduType) returns (m: nat)
    requires t != SYMM && WaitFor(replies, t, SYMM).end == Arrived
    ensures Arrives(replies, m, WaitFor(replies, t, SYMM).pdu, t, HEADER_BUFFER)
    decreases |replies|
  {
    hide GetPType;
    var r := Next(replies);
    var pdu := r.bytes[1..];
    assert r == Data([0] + pdu);
    if GetPType(pdu[0], pdu[1]) == t {
      m := 0;
    } else {
      m := WaitArrives(replies[2..], t);
      m := m + 1;
      assert IsSymm(replies[0], HEADER_BUFFER);
      assert replies[2..][2 * (m - 1)] == replies[2 * m];
    }
  }

  // ----- connecting and sending

  /** SYMM, the PDU accepted, and its answer after `m` SYMM PDUs. */
  predicate Connects(replies: seq<Reply>, m: nat, cc: seq<Byte>) {
    && IsSymm(Next(replies), HEADER_BUFFER) && SetOk(Next(Drop(replies, 1)))
    && Arrives(Drop(replies, 2), m, cc, CC, HEADER_BUFFER)
  }

  ghost predicate CanConnect(replies: seq<Reply>) {
    exists m: nat, cc :: Connects(replies, m, cc)
  }

  lemma ConnectSucceeds(replies: seq<Reply>, m: nat, cc: seq<Byte>)
    requires Connects(replies, m, cc)
    ensures Opening(replies, CC, SYMM) == Exchange(1, 2 * m + 3)
  {
    hide SetOk, GetPType, WaitFor, Arrives;
    WaitSkipsSymm(Drop(replies, 2), m, cc, CC);
  }

  /** Connecting succeeds in this case and in no other. */
  lemma ConnectSucceedsIff(replies: seq<Reply>)
    ensures Opening(replies, CC, SYMM).code == 1 <==> CanConnect(replies)
  {
    hide SetOk, GetPType, Arrives;
    if Opening(replies, CC, SYMM).code == 1 {
      var w := WaitFor(Drop(replies, 2), CC, SYMM);
      var m := WaitArrives(Drop(replies, 2), CC);
      assert Connects(replies, m, w.pdu);
    }
    if CanConnect(replies) {
      var m: nat, cc :| Connects(replies, m, cc);
      ConnectSucceeds(replies, m, cc);
    }
  }

  /** How connecting fails. */
  lemma ConnectFails(replies: seq<Reply>, m: nat)
    ensures !IsSymm(Next(replies), HEADER_BUFFER) ==> Opening(replies, CC, SYMM) == Exchange(-1, 1)
    ensures IsSymm(Next(replies), HEADER_BUFFER) && !SetOk(Next(Drop(replies, 1))) ==> Opening(replies, CC, SYMM) == Exchange(-2, 2)
    ensures var rest := Drop(replies, 2);
            var r := Reached(rest, m);
            IsSymm(Next(replies), HEADER_BUFFER) && SetOk(Next(Drop(replies, 1))) && Idle(rest, m, HEADER_BUFFER) ==>
              if GetStatus(r, HEADER_BUFFER) < 2 then Opening(replies, CC, SYMM) == Exchange(-1, 2 * m + 3)
              else
                var other := GetPType(r.bytes[1], r.bytes[2]);
                && (other != CC && other != SYMM ==> Opening(replies, CC, SYMM) == Exchange(-3, 2 * m + 3))
                && (other == SYMM && !SetOk(Next(Drop(rest, 2 * m + 1))) ==> Opening(replies, CC, SYMM) == Exchange(-2, 2 * m + 4))
  {
    hide SetOk, GetPType, WaitFor, Idle, Reached;
    var rest := Drop(replies, 2);
    if Idle(rest, m, HEADER_BUFFER) {
      WaitFails(rest, m, CC);
    }
  }

  /** How a link read ends at once: by the status stored unsigned, or by the type found in the buffer. */
  lemma ReadFails(buf: seq<Byte>, replies: seq<Reply>)
    requires 2 <= |buf|
    ensures var r := Next(replies);
            var after := GetBuffer(buf, r, |buf|);
            var t := GetPType(after[0], after[1]);
            && (0 <= GetStatus(r, |buf|) < 2 ==> ReadPdu(buf, replies, |buf|) == Reading(Failed(-1), after, 1))
            && (-5 <= GetStatus(r, |buf|) < 0 || 2 <= GetStatus(r, |buf|) < 0x10000 ==>
                && (t != INFORMATION && t != SYMM ==> ReadPdu(buf, replies, |buf|) == Reading(Failed(-3), after, 1))
                && ((t == INFORMATION || t == SYMM) && !SetOk(Next(Drop(replies, 1))) ==>
                    ReadPdu(buf, replies, |buf|) == Reading(Failed(-2), after, 2)))
  {
    hide SetOk, GetPType, GetBuffer, GetStatus, Hear;
    HearTurn(buf, replies, |buf|);
  }

  /** A SYMM if the peer is to speak first, the PDU accepted, its receipt after `m` SYMM PDUs, and a SYMM accepted. */
  predicate Receives(reading: bool, replies: seq<Reply>, m: nat, rr: seq<Byte>) {
    var start := if reading then 1 else 0;
    && (reading ==> GetStatus(Next(replies), 3) == 2) && SetOk(Next(Drop(replies, start)))
    && Delivers(Drop(replies, start + 1), m, rr, RR, HEADER_BUFFER)
  }

  ghost predicate CanReceive(reading: bool, replies: seq<Reply>) {
    exists m: nat, rr :: Receives(reading, replies, m, rr)
  }

  lemma SendSucceeds(reading: bool, replies: seq<Reply>, m: nat, rr: seq<Byte>)
    requires Receives(reading, replies, m, rr)
    ensures Sending(reading, replies) == Exchange(1, if reading then 2 * m + 4 else 2 * m + 3)
  {
    hide SetOk, GetPType, WaitFor, GetStatus, Arrives, Delivers, Drop, Next;
    var start := if reading then 1 else 0;
    var rest := Drop(replies, start + 1);
    Delivered(rest, m, rr, RR);
    WaitSkipsSymm(rest, m, rr, RR);
    DropDrop(replies, start + 1, 2 * m + 1);
  }

  lemma Delivered(rest: seq<Reply>, m: nat, pdu: seq<Byte>, t: PduType)
    requires Delivers(rest, m, pdu, t, HEADER_BUFFER)
    ensures Arrives(rest, m, pdu, t, HEADER_BUFFER) && SetOk(Next(Drop(rest, 2 * m + 1)))
  {
    hide Arrives, SetOk;
  }

  /** Sending succeeds in this case and in no other. */
  lemma SendSucceedsIff(reading: bool, replies: seq<Reply>)
    ensures Sending(reading, replies).code == 1 <==> CanReceive(reading, replies)
  {
    hide SetOk, GetPType, GetStatus;
    if Sending(reading, replies).code == 1 {
      var start := if reading then 1 else 0;
      var rest := Drop(replies, start + 1);
      hide WaitFor;
      var w := WaitFor(rest, RR, SYMM);
      var m := WaitArrives(rest, RR);
      WaitSkipsSymm(rest, m, w.pdu, RR);
      DropDrop(replies, start + 1, 2 * m + 1);
      NothingAccepted();
      assert Next(Drop(rest, 2 * m + 1)) == if |rest| > 2 * m + 1 then rest[2 * m + 1] else Refused;
      assert Receives(reading, replies, m, w.pdu);
    }
    if CanReceive(reading, replies) {
      var m: nat, rr :| Receives(reading, replies, m, rr);
      SendSucceeds(reading, replies, m, rr);
    }
  }

  /** How far a sending that fails gets: to the peer's turn, to the PDU, or to the wait for its receipt. */
  lemma SendFails(reading: bool, replies: seq<Reply>)
    ensures reading && GetStatus(Next(replies), 3) != 2 ==> Sending(reading, replies) == Exchange(0, 1)
    ensures var start := if reading then 1 else 0;
            (reading ==> GetStatus(Next(replies), 3) == 2) ==>
              if !SetOk(Next(Drop(replies, start))) then Sending(reading, replies) == Exchange(0, start + 1)
              else
                var w := WaitFor(Drop(replies, start + 1), RR, SYMM);
                && (w.end != Arrived ==> Sending(reading, replies) == Exchange(0, start + 1 + w.used))
                && (w.end == Arrived && !SetOk(Next(Drop(replies, start + 1 + w.used))) ==>
                    Sending(reading, replies) == Exchange(0, start + 2 + w.used))
  {
    hide SetOk, WaitFor, GetStatus;
  }

  lemma NothingAccepted()
    ensures !SetOk(Refused)
  {
  }

  // ----- a whole put

  /** What the peer does about a put: it connects, takes the put, and responds. */
  predicate Responds(replies: seq<Reply>, m1: nat, cc: seq<Byte>, m2: nat, rr: seq<Byte>, m3: nat, response: seq<Byte>) {
    && Connects(replies, m1, cc)
    && Receives(false, Drop(replies, 2 * m1 + 3), m2, rr)
    && Delivers(Drop(replies, 2 * m1 + 2 * m2 + 6), m3, response, INFORMATION, 16)
  }

  /**
   A put that is connected, received and answered ends well exactly if the answer, behind its link
   header, begins with the version and the success code and has at least six bytes; with any other
   answer it ends with -4. SYMM PDUs may come anywhere.
   */
  lemma PutEnds(replies: seq<Reply>, stack: seq<Byte>, m1: nat, cc: seq<Byte>, m2: nat, rr: seq<Byte>,
                m3: nat, response: seq<Byte>)
    requires |stack| == 16 && Responds(replies, m1, cc, m2, rr, m3, response) && |response| >= 3
    ensures SendPut(replies, stack) ==
            if |response| >= 9 && response[3] == 0x10 && response[4] == 0x81 then Done(1) else Done(-4)
  {
    hide SetOk, GetPType, WaitFor, Hear, Opening, Sending, Delivers, Connects, Receives, ReadPdu, ResponseOf, Drop;
    ConnectSucceeds(replies, m1, cc);
    SendSucceeds(false, Drop(replies, 2 * m1 + 3), m2, rr);
    var rest := Drop(replies, 2 * m1 + 2 * m2 + 6);
    ResponseRead(stack, rest, m3, response);
  }

  lemma ResponseRead(stack: seq<Byte>, rest: seq<Reply>, m: nat, response: seq<Byte>)
    requires |stack| == 16 && Delivers(rest, m, response, INFORMATION, 16) && |response| >= 3
    ensures ResponseOf(ReadPdu(stack, rest, 16)) ==
            if |response| >= 9 && response[3] == 0x10 && response[4] == 0x81 then Done(1) else Done(-4)
  {
    hide SetOk, GetPType, Hear;
    HearSkipsSymm(stack, rest, m, response);
    var h, n := Hear(stack, rest, 16), |response| - 3;
    assert Next(Drop(rest, 2 * m + 1)) == rest[2 * m + 1];
    assert Add8(h.status, -3) == n;
    var b := Shifted(h.buf, n, 3);
    assert h.buf[3..3 + n] == h.buf[..|response|][3..] == response[3..];
    if n >= 2 {
      assert b[0] == response[3] && b[1] == response[4];
    }
  }

  /** A put that is received but whose answer cannot be read ends with -4. */
  lemma PutUnanswered(replies: seq<Reply>, stack: seq<Byte>, m1: nat, cc: seq<Byte>, m2: nat, rr: seq<Byte>)
    requires |stack| == 16 && Connects(replies, m1, cc) && Receives(false, Drop(replies, 2 * m1 + 3), m2, rr)
    requires ReadPdu(stack, Drop(replies, 2 * m1 + 2 * m2 + 6), 16).end.Failed?
    ensures SendPut(replies, stack) == Done(-4)
  {
    hide Opening, Sending, Connects, Receives, ReadPdu, Drop;
    ConnectSucceeds(replies, m1, cc);
    SendSucceeds(false, Drop(replies, 2 * m1 + 3), m2, rr);
  }

  /** A put that is not connected ends with -2. */
  lemma PutUnconnected(replies: seq<Reply>, stack: seq<Byte>)
    requires |stack| == 16 && !CanConnect(replies)
    ensures SendPut(replies, stack) == Done(-2)
  {
    hide Opening, Sending, CanConnect, ReadPdu;
    ConnectSucceedsIff(replies);
    OpeningCodes(replies);
  }

  /** A put that is connected but not received ends with -3. */
  lemma PutUnreceived(replies: seq<Reply>, stack: seq<Byte>, m: nat, cc: seq<Byte>)
    requires |stack| == 16 && Connects(replies, m, cc) && !CanReceive(false, Drop(replies, 2 * m + 3))
    ensures SendPut(replies, stack) == Done(-3)
  {
    hide Opening, Sending, Connects, CanReceive, ReadPdu;
    ConnectSucceeds(replies, m, cc);
    SendSucceedsIff(false, Drop(replies, 2 * m + 3));
    SendingCodes(Drop(replies, 2 * m + 3));
  }

  lemma SendingCodes(replies: seq<Reply>)
    ensures Sending(false, replies).code == 0 || Sending(false, replies).code == 1
  {
  }

  lemma OpeningCodes(replies: seq<Reply>)
    ensures Opening(replies, CC, SYMM).code == 1 || Opening(replies, CC, SYMM).code < 0
  {
  }

  /** A message is moved up by four bytes exactly if its version is missing at its start and present there. */
  lemma RealignedIff(buf: seq<Byte>)
    requires 6 <= |buf|
    ensures buf[0] != 0x10 && buf[4] == 0x10 ==> Realigned(buf)[..|buf| - 4] == buf[4..] && Realigned(buf)[|buf| - 4..] == buf[|buf| - 4..]
    ensures buf[0] == 0x10 || buf[4] != 0x10 ==> Realigned(buf) == buf
  {
  }

  /** How a reader fails: no connection, too short a message, or bytes that are no put. */
  lemma ReadPutFails(buf: seq<Byte>, replies: seq<Reply>)
    requires 6 <= |buf|
    ensures var w := WaitFor(replies, CONNECT, SYMM);
            w.end != Arrived || !SetOk(Next(Drop(replies, w.used))) ==> ReadPut(buf, replies) == Verdict(Done(-2), buf)
    ensures var w, r := WaitFor(replies, CONNECT, SYMM), LinkRead(buf, replies);
            w.end == Arrived && SetOk(Next(Drop(replies, w.used))) ==>
              && (r.end.Got? && r.end.n < 6 ==> ReadPut(buf, replies).result == Done(-3))
              && (r.end.Got? && r.end.n >= 6 && !LooksLikePut(r.buf, r.end.n) ==> ReadPut(buf, replies).result == Done(-4))
  {
    hide SetOk, WaitFor, ReadPdu, Judge, LooksLikePut;
    var r := LinkRead(buf, replies);
    if r.end.Got? {
      JudgePassesPuts(r.buf, r.end.n);
    }
  }
}
