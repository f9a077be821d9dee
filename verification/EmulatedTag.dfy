/**
 The emulated NFC Forum Type 4 tag: the APDU loop over its NDEF file, and what every sequence of
 APDUs leaves in that file. SELECT, READ BINARY and UPDATE BINARY: sections 7.1.1, 7.2.3 and
 7.2.5 of ISO/IEC 7816-4:2005.
 */
module EmulatedTag {
  import opened Bytes
  import opened Memory

  const NDEF_MAX_LENGTH := 128
  const RWBUF_SIZE := 128

  const SELECT_FILE: Byte := 0xA4
  const READ_BINARY: Byte := 0xB0
  const UPDATE_BINARY: Byte := 0xD6

  const COMMAND_COMPLETE: seq<Byte> := [0x90, 0x00]
  const TAG_NOT_FOUND: seq<Byte> := [0x6A, 0x82]
  const FUNCTION_NOT_SUPPORTED: seq<Byte> := [0x6A, 0x81]
  const MEMORY_FAILURE: seq<Byte> := [0x65, 0x81]
  const END_OF_FILE: seq<Byte> := [0x62, 0x82]

  /** Bytes 3 to 11 of a SELECT of the NDEF tag application by name. */
  const APPLICATION_NAME: seq<Byte> := [0, 0x07, 0xD2, 0x76, 0x00, 0x00, 0x85, 0x01, 0x01]

  /**
   The whole read-write buffer as it stands when `tgGetData` has returned. Quantifying over buffers
   rather than over APDUs covers the bytes left behind by earlier exchanges.
   */
  type Apdu = b: seq<Byte> | |b| == RWBUF_SIZE witness seq(RWBUF_SIZE, _ => 0)

  function Ins(b: Apdu): Byte { b[1] }
  function Offset(b: Apdu): nat { Word32(0, 0, b[2], b[3]) }
  function Lc(b: Apdu): Byte { b[4] }

  datatype TagFile = NoFile | CapabilityContainer | NdefFile

  /** A call of the update callback: what lies behind the pointer it gets, and the length. */
  datatype Event = Updated(content: seq<Byte>, length: nat)

  datatype State = State(file: seq<Byte>, writeable: bool, attached: bool, events: seq<Event>,
                         written: bool, current: TagFile, sendLength: Byte)
  {
    ghost predicate Valid() {
      |file| == NDEF_MAX_LENGTH
    }
  }

  function Container(writeable: bool): seq<Byte> {
    [0, 0x0F, 0x20, 0, 0x54, 0, 0xFF, 0x04, 0x06, 0xE1, 0x04, 0, 0x80, 0x00, if writeable then 0x00 else 0xFF]
  }

  /** An UPDATE BINARY that passes the offset check. */
  predicate IsUpdate(b: Apdu) {
    Ins(b) == UPDATE_BINARY && Offset(b) <= NDEF_MAX_LENGTH
  }

  predicate IsNdefRead(s: State, b: Apdu) {
    Ins(b) == READ_BINARY && s.current == NdefFile && Offset(b) <= NDEF_MAX_LENGTH
  }

  /** A SELECT that is neither by identifier nor by name sets no response at all. */
  predicate Unanswered(b: Apdu) {
    Ins(b) == SELECT_FILE && b[2] != 0x00 && b[2] != 0x04
  }

  /** Every copy made for this APDU stays inside the buffers it names. */
  predicate InBounds(s: State, b: Apdu) {
    && (s.writeable && IsUpdate(b) ==> Offset(b) + Lc(b) <= NDEF_MAX_LENGTH && 5 + Lc(b) <= RWBUF_SIZE)
    && (IsNdefRead(s, b) ==> Offset(b) + Lc(b) <= NDEF_MAX_LENGTH && Lc(b) + 2 <= RWBUF_SIZE)
    && (Ins(b) == READ_BINARY && s.current == CapabilityContainer && Offset(b) <= NDEF_MAX_LENGTH
        ==> Offset(b) + Lc(b) <= |Container(s.writeable)|)
    && (Unanswered(b) ==> s.sendLength <= RWBUF_SIZE)
  }

  /** The new state and the bytes handed to `tgSetData`. */
  datatype Reply = Reply(state: State, response: seq<Byte>)

  function Answer(s: State, sw: seq<Byte>): Reply
    requires |sw| == 2
  {
    Reply(s.(sendLength := 2), sw)
  }

  function AnswerWith(s: State, data: seq<Byte>): Reply
    requires |data| + 2 <= RWBUF_SIZE
  {
    Reply(s.(sendLength := |data| + 2), data + COMMAND_COMPLETE)
  }

  function LengthOf(file: seq<Byte>): nat
    requires |file| == NDEF_MAX_LENGTH
  {
    Word32(0, 0, file[0], file[1])
  }

  function Select(s: State, b: Apdu): Reply
    requires InBounds(s, b) && Ins(b) == SELECT_FILE
  {
    if b[2] == 0x00 then
      if b[3] != 0x0C then Answer(s, COMMAND_COMPLETE)
      else if Lc(b) == 2 && b[5] == 0xE1 && (b[6] == 0x03 || b[6] == 0x04) then
        Answer(s.(current := if b[6] == 0x03 then CapabilityContainer else NdefFile), COMMAND_COMPLETE)
      else Answer(s, TAG_NOT_FOUND)
    else if b[2] == 0x04 then
      Answer(s, if b[3..12] == APPLICATION_NAME then COMMAND_COMPLETE else FUNCTION_NOT_SUPPORTED)
    else Reply(s, b[..s.sendLength])
  }

  function Read(s: State, b: Apdu): Reply
    requires s.Valid() && InBounds(s, b) && Ins(b) == READ_BINARY
  {
    if s.current == NoFile then Answer(s, TAG_NOT_FOUND)
    else if Offset(b) > NDEF_MAX_LENGTH then Answer(s, END_OF_FILE)
    else if s.current == CapabilityContainer then
      AnswerWith(s, Container(s.writeable)[Offset(b)..Offset(b) + Lc(b)])
    else AnswerWith(s, s.file[Offset(b)..Offset(b) + Lc(b)])
  }

  /** UPDATE BINARY writes the NDEF file whichever file is selected. */
  function Update(s: State, b: Apdu): Reply
    requires s.Valid() && InBounds(s, b) && Ins(b) == UPDATE_BINARY
  {
    if !s.writeable then Answer(s, FUNCTION_NOT_SUPPORTED)
    else if Offset(b) > NDEF_MAX_LENGTH then Answer(s, MEMORY_FAILURE)
    else
      var file := Splice(s.file, Offset(b), b[5..5 + Lc(b)]);
      var n := LengthOf(file);
      Answer(s.(file := file, written := true,
                events := if n > 0 && s.attached then s.events + [Updated(file[2..], n)] else s.events),
             COMMAND_COMPLETE)
  }

  function Handle(s: State, b: Apdu): (r: Reply)
    requires s.Valid() && InBounds(s, b)
    ensures r.state.Valid()
    ensures r.state.writeable == s.writeable && r.state.attached == s.attached
  {
    if Ins(b) == SELECT_FILE then Select(s, b)
    else if Ins(b) == READ_BINARY then Read(s, b)
    else if Ins(b) == UPDATE_BINARY then Update(s, b)
    else Answer(s, FUNCTION_NOT_SUPPORTED)
  }

  // ----- whole runs

  predicate RunInBounds(s: State, trace: seq<Apdu>)
    requires s.Valid()
    decreases |trace|
  {
    trace == [] || (InBounds(s, trace[0]) && RunInBounds(Handle(s, trace[0]).state, trace[1..]))
  }

  /** The state after a sequence of APDUs, and everything sent in answer. */
  function Run(s: State, trace: seq<Apdu>): (r: (State, seq<seq<Byte>>))
    requires s.Valid() && RunInBounds(s, trace)
    ensures r.0.Valid() && |r.1| == |trace|
    ensures r.0.writeable == s.writeable && r.0.attached == s.attached
    decreases |trace|
  {
    if trace == [] then (s, [])
    else
      var h := Handle(s, trace[0]);
      var (last, responses) := Run(h.state, trace[1..]);
      (last, [h.response] + responses)
  }

  lemma {:induction false} RunAppend(s: State, a: seq<Apdu>, b: seq<Apdu>)
    requires s.Valid() && RunInBounds(s, a + b)
    ensures RunInBounds(s, a) && RunInBounds(Run(s, a).0, b)
    ensures Run(s, a + b).0 == Run(Run(s, a).0, b).0
    ensures Run(s, a + b).1 == Run(s, a).1 + Run(Run(s, a).0, b).1
    decreases |a|
  {
    hide Handle, InBounds;
    if a == [] {
      assert a + b == b;
    } else {
      assert (a + b)[0] == a[0] && (a + b)[1..] == a[1..] + b;
      RunAppend(Handle(s, a[0]).state, a[1..], b);
    }
  }

  /** Does `b` write the byte at `i`? */
  predicate Covers(b: Apdu, i: nat) {
    IsUpdate(b) && Offset(b) <= i < Offset(b) + Lc(b) && 5 + Lc(b) <= RWBUF_SIZE
  }

  /**
   The byte at `i` as a reader of the log would reconstruct it: the data byte of the latest update
   that covers `i`, or the initial one. No state is involved.
   */
  function LastWritten(initial: seq<Byte>, trace: seq<Apdu>, i: nat): Byte
    requires i < |initial|
  {
    if trace == [] then initial[i]
    else
      var b := trace[|trace| - 1];
      if Covers(b, i) then b[5 + i - Offset(b)] else LastWritten(initial, trace[..|trace| - 1], i)
  }

  ghost function FinalByte(s: State, trace: seq<Apdu>, i: nat): Byte
    requires i < |s.file|
  {
    if s.writeable then LastWritten(s.file, trace, i) else s.file[i]
  }

  /** One APDU changes the file, on a writeable tag, only where it covers it. */
  lemma HandleFile(s: State, b: Apdu, i: nat)
    requires s.Valid() && InBounds(s, b) && i < NDEF_MAX_LENGTH
    ensures Handle(s, b).state.file[i] ==
            if s.writeable && Covers(b, i) then b[5 + i - Offset(b)] else s.file[i]
    ensures Handle(s, b).state.written == (s.written || (s.writeable && IsUpdate(b)))
  {
  }

  lemma RunSnoc(s: State, trace: seq<Apdu>)
    requires s.Valid() && trace != [] && RunInBounds(s, trace)
    ensures var prefix, b := trace[..|trace| - 1], trace[|trace| - 1];
            && RunInBounds(s, prefix)
            && InBounds(Run(s, prefix).0, b)
            && Run(s, trace).0 == Handle(Run(s, prefix).0, b).state
            && Run(s, trace).1 == Run(s, prefix).1 + [Handle(Run(s, prefix).0, b).response]
  {
    hide Handle, InBounds;
    var prefix, b := trace[..|trace| - 1], trace[|trace| - 1];
    assert trace == prefix + [b];
    RunAppend(s, prefix, [b]);
    assert [b][1..] == [];
  }

  /** After any run of a writeable tag, every byte of the file is the last one written there. */
  lemma {:induction false} FileHoldsLastWritten(s: State, trace: seq<Apdu>, i: nat)
    requires s.Valid() && RunInBounds(s, trace) && i < NDEF_MAX_LENGTH
    ensures Run(s, trace).0.file[i] == FinalByte(s, trace, i)
    decreases |trace|
  {
    hide Handle, InBounds, Covers;
    if trace != [] {
      RunSnoc(s, trace);
      var prefix := trace[..|trace| - 1];
      FileHoldsLastWritten(s, prefix, i);
      HandleFile(Run(s, prefix).0, trace[|trace| - 1], i);
    }
  }

  /** The answer to a read of the NDEF file: the last-written bytes, then 90 00. */
  lemma ReadBack(s: State, trace: seq<Apdu>, b: Apdu)
    requires s.Valid() && RunInBounds(s, trace + [b])
    requires RunInBounds(s, trace) && IsNdefRead(Run(s, trace).0, b)
    ensures var response := Run(s, trace + [b]).1[|trace|];
            && |response| == Lc(b) + 2
            && response[Lc(b)..] == COMMAND_COMPLETE
            && Offset(b) + Lc(b) <= NDEF_MAX_LENGTH
            && forall i :: Offset(b) <= i < Offset(b) + Lc(b) ==> response[i - Offset(b)] == FinalByte(s, trace, i)
  {
    hide LastWritten, RunInBounds;
    var all := trace + [b];
    RunSnoc(s, all);
    assert all[..|all| - 1] == trace;
    forall i | Offset(b) <= i < Offset(b) + Lc(b)
      ensures Run(s, trace).0.file[i] == FinalByte(s, trace, i)
    {
      FileHoldsLastWritten(s, trace, i);
    }
  }

  // ----- which file is read

  /** A SELECT by identifier, first or only occurrence, of a file that exists: E103 or E104. */
  predicate SelectsFile(b: Apdu) {
    && b[1] == 0xA4 && b[2] == 0x00 && b[3] == 0x0C && b[4] == 2
    && b[5] == 0xE1 && (b[6] == 0x03 || b[6] == 0x04)
  }

  /** The identifier in the latest such SELECT, as a reader of the log would find it; 0 if there is none. */
  function LastSelected(trace: seq<Apdu>): nat {
    if trace == [] then 0
    else
      var b := trace[|trace| - 1];
      if SelectsFile(b) then Word32(0, 0, b[5], b[6]) else LastSelected(trace[..|trace| - 1])
  }

  function Identifier(f: TagFile): nat {
    match f
    case NoFile => 0
    case CapabilityContainer => 0xE103
    case NdefFile => 0xE104
  }

  /** The file selected after any run is the one last selected in the log. */
  lemma {:induction false} CurrentIsLastSelected(s: State, trace: seq<Apdu>)
    requires s.Valid() && s.current == NoFile && RunInBounds(s, trace)
    ensures Identifier(Run(s, trace).0.current) == LastSelected(trace)
    decreases |trace|
  {
    hide Handle, InBounds, Run, RunInBounds;
    if trace != [] {
      var prefix, b := trace[..|trace| - 1], trace[|trace| - 1];
      RunSnoc(s, trace);
      CurrentIsLastSelected(s, prefix);
      CurrentAfter(Run(s, prefix).0, b);
    } else {
      NothingRun(s);
    }
  }

  lemma NothingRun(s: State)
    requires s.Valid() && RunInBounds(s, [])
    ensures Run(s, []).0 == s
  {
  }

  lemma CurrentAfter(s: State, b: Apdu)
    requires s.Valid() && InBounds(s, b)
    ensures Identifier(Handle(s, b).state.current) ==
            if SelectsFile(b) then Word32(0, 0, b[5], b[6]) else Identifier(s.current)
  {
  }

  /**
   The answer to READ BINARY after any run of a freshly activated tag, from the log alone: nothing
   selected is not found, an offset past the end is refused; E103 gives the capability container,
   E104 the last-written bytes, each followed by 90 00.
   */
  lemma ReadAnswersFromTheLog(s: State, trace: seq<Apdu>, b: Apdu)
    requires s.Valid() && s.current == NoFile && RunInBounds(s, trace + [b]) && b[1] == 0xB0
    ensures var response, selected := Run(s, trace + [b]).1[|trace|], LastSelected(trace);
            if selected == 0 then response == [0x6A, 0x82]
            else if Offset(b) > 128 then response == [0x62, 0x82]
            else
              && |response| == Lc(b) + 2 && response[Lc(b)..] == [0x90, 0x00]
              && forall i :: Offset(b) <= i < Offset(b) + Lc(b) ==>
                   response[i - Offset(b)] == ByteOf(s, trace, selected, i)
  {
    hide Handle, Run, InBounds, FinalByte, LastWritten;
    var all := trace + [b];
    assert all[..|trace|] == trace && all[|trace|] == b;
    RunSnoc(s, all);
    CurrentIsLastSelected(s, trace);
    var now := Run(s, trace).0;
    ReadAnswer(now, b);
    if now.current == NdefFile && Offset(b) <= 128 {
      forall i | Offset(b) <= i < Offset(b) + Lc(b)
        ensures now.file[i] == FinalByte(s, trace, i)
      {
        FileHoldsLastWritten(s, trace, i);
      }
    }
  }

  /** The byte at `i` of the file with that identifier. */
  ghost function ByteOf(s: State, trace: seq<Apdu>, id: nat, i: nat): Byte {
    if id == 0xE104 then (if i < |s.file| then FinalByte(s, trace, i) else 0)
    else if i < 15 then
      [0x00, 0x0F, 0x20, 0x00, 0x54, 0x00, 0xFF, 0x04, 0x06, 0xE1, 0x04, 0x00, 0x80, 0x00, if s.writeable then 0x00 else 0xFF][i]
    else 0
  }

  lemma ReadAnswer(s: State, b: Apdu)
    requires s.Valid() && InBounds(s, b) && b[1] == 0xB0
    ensures var response := Handle(s, b).response;
            if s.current == NoFile then response == [0x6A, 0x82]
            else if Offset(b) > 128 then response == [0x62, 0x82]
            else
              var file := if s.current == NdefFile then s.file else Container(s.writeable);
              && Offset(b) + Lc(b) <= |file| && response == file[Offset(b)..Offset(b) + Lc(b)] + [0x90, 0x00]
  {
  }

  /** The answers to all other commands, byte for byte. */
  lemma OtherAnswers(s: State, b: Apdu)
    requires s.Valid() && InBounds(s, b) && b[1] != 0xB0 && !(b[1] == 0xA4 && b[2] != 0x00 && b[2] != 0x04)
    ensures Handle(s, b).response ==
            if b[1] == 0xD6 then
              (if !s.writeable then [0x6A, 0x81] else if Offset(b) > 128 then [0x65, 0x81] else [0x90, 0x00])
            else if b[1] == 0xA4 && b[2] == 0x04 then
              (if b[3..12] == [0x00, 0x07, 0xD2, 0x76, 0x00, 0x00, 0x85, 0x01, 0x01] then [0x90, 0x00] else [0x6A, 0x81])
            else if b[1] == 0xA4 then
              (if b[3] != 0x0C || SelectsFile(b) then [0x90, 0x00] else [0x6A, 0x82])
            else [0x6A, 0x81]
  {
  }

  /** The fields of an APDU: instruction, two bytes of offset, the high one first, and length. */
  lemma ApduFields(b: Apdu)
    ensures var high: int, low: int := b[2], b[3];
            Ins(b) == b[1] && Offset(b) == high * 256 + low && Lc(b) == b[4]
  {
  }

  /** A SELECT in any other way is answered with its own bytes, as many as the answer before it had. */
  lemma UnansweredSelect(s: State, a: Apdu, b: Apdu)
    requires s.Valid() && RunInBounds(s, [a, b])
    requires !(a[1] == 0xA4 && a[2] != 0x00 && a[2] != 0x04) && b[1] == 0xA4 && b[2] != 0x00 && b[2] != 0x04
    ensures var responses := Run(s, [a, b]).1;
            |responses[0]| <= 128 && responses[1] == b[..|responses[0]|]
  {
    hide Handle, InBounds;
    var trace := [a, b];
    assert trace[1..] == [b] && [b][1..] == [];
    var first := Handle(s, a);
    AnswerLength(s, a);
    Echoes(first.state, b);
    assert Run(s, trace).1 == [first.response] + Run(first.state, [b]).1;
    assert Run(first.state, [b]).1 == [Handle(first.state, b).response] + Run(Handle(first.state, b).state, []).1;
  }

  lemma AnswerLength(s: State, b: Apdu)
    requires s.Valid() && InBounds(s, b) && !(b[1] == 0xA4 && b[2] != 0x00 && b[2] != 0x04)
    ensures Handle(s, b).state.sendLength == |Handle(s, b).response| <= 128
  {
  }

  lemma Echoes(s: State, b: Apdu)
    requires s.Valid() && InBounds(s, b) && b[1] == 0xA4 && b[2] != 0x00 && b[2] != 0x04
    ensures s.sendLength <= 128 && Handle(s, b).response == b[..s.sendLength]
  {
  }

  predicate HasUpdate(trace: seq<Apdu>) {
    exists b :: b in trace && IsUpdate(b)
  }

  /** The written flag goes up on a writeable tag exactly when some update passed its check. */
  lemma {:induction false} WrittenIffUpdated(s: State, trace: seq<Apdu>)
    requires s.Valid() && RunInBounds(s, trace)
    ensures Run(s, trace).0.written <==> s.written || (s.writeable && HasUpdate(trace))
    decreases |trace|
  {
    hide Handle, InBounds, IsUpdate;
    if trace != [] {
      RunSnoc(s, trace);
      var prefix, b := trace[..|trace| - 1], trace[|trace| - 1];
      WrittenIffUpdated(s, prefix);
      HandleFile(Run(s, prefix).0, b, 0);
      assert forall a :: a in trace <==> a in prefix || a == b;
    }
  }

  /** No sequence of APDUs changes a read-only tag, raises its flag or calls the callback. */
  lemma {:induction false} ReadOnlyIsReadOnly(s: State, trace: seq<Apdu>)
    requires s.Valid() && RunInBounds(s, trace) && !s.writeable
    ensures var last := Run(s, trace).0;
            last.file == s.file && last.written == s.written && last.events == s.events
    decreases |trace|
  {
    hide Handle, InBounds;
    if trace != [] {
      ReadOnlyStep(s, trace[0]);
      ReadOnlyIsReadOnly(Handle(s, trace[0]).state, trace[1..]);
    }
  }

  lemma ReadOnlyStep(s: State, b: Apdu)
    requires s.Valid() && InBounds(s, b) && !s.writeable
    ensures var next := Handle(s, b).state;
            next.file == s.file && next.written == s.written && next.events == s.events
  {
  }

  // ----- a writing session

  /** The callback is called once by each accepted update that leaves a nonzero length, if there is one to call. */
  lemma CallbackIff(s: State, b: Apdu)
    requires s.Valid() && InBounds(s, b)
    ensures var next := Handle(s, b).state;
            var high: int, low: int := next.file[0], next.file[1];
            next.events ==
            if s.attached && s.writeable && b[1] == 0xD6 && Offset(b) <= 128 && high * 256 + low > 0
            then s.events + [Updated(next.file[2..], high * 256 + low)] else s.events
  {
  }

  predicate LeavesLengthAlone(b: Apdu) {
    IsUpdate(b) ==> Offset(b) >= 2
  }

  /** While the length field is zero and nothing writes it, the callback stays silent. */
  lemma {:induction false} SilentWhileLengthIsZero(s: State, trace: seq<Apdu>)
    requires s.Valid() && RunInBounds(s, trace)
    requires LengthOf(s.file) == 0
    requires forall b :: b in trace ==> LeavesLengthAlone(b)
    ensures LengthOf(Run(s, trace).0.file) == 0 && Run(s, trace).0.events == s.events
    decreases |trace|
  {
    hide Handle, InBounds, LengthOf, LeavesLengthAlone;
    if trace != [] {
      var b := trace[0];
      QuietStep(s, b);
      SilentWhileLengthIsZero(Handle(s, b).state, trace[1..]);
    }
  }

  lemma QuietStep(s: State, b: Apdu)
    requires s.Valid() && InBounds(s, b)
    requires LengthOf(s.file) == 0 && LeavesLengthAlone(b)
    ensures LengthOf(Handle(s, b).state.file) == 0 && Handle(s, b).state.events == s.events
  {
    HandleFile(s, b, 0);
    HandleFile(s, b, 1);
  }

  predicate WritesLength(b: Apdu, n: nat) {
    IsUpdate(b) && Offset(b) == 0 && Lc(b) >= 2 && Word32(0, 0, b[5], b[6]) == n
  }

  /**
   A session that first zeroes the length, then writes only from offset 2 on, interleaved with any
   other commands, then writes a nonzero length: the callback is called exactly once, by the last
   write, with the complete file content and that length.
   */
  lemma OneCallbackPerSession(s: State, open: Apdu, middle: seq<Apdu>, close: Apdu, n: nat)
    requires s.Valid() && s.writeable && s.attached
    requires RunInBounds(s, [open] + middle + [close])
    requires WritesLength(open, 0) && WritesLength(close, n) && n > 0
    requires forall b :: b in middle ==> LeavesLengthAlone(b)
    ensures var trace, last := [open] + middle + [close], Run(s, [open] + middle + [close]).0;
            && last.events == s.events + [Updated(last.file[2..], n)]
            && forall i :: 2 <= i < NDEF_MAX_LENGTH ==> last.file[i] == LastWritten(s.file, trace, i)
  {
    hide RunInBounds, Run;
    var trace := [open] + middle + [close];
    RunSnoc(s, trace);
    assert trace[..|trace| - 1] == [open] + middle;
    RunAppend(s, [open], middle);
    OpensAtZero(s, open);
    SilentWhileLengthIsZero(Run(s, [open]).0, middle);
    Closes(Run(s, [open] + middle).0, close, n);
    forall i | 2 <= i < NDEF_MAX_LENGTH
      ensures Run(s, trace).0.file[i] == LastWritten(s.file, trace, i)
    {
      FileHoldsLastWritten(s, trace, i);
    }
  }

  lemma OpensAtZero(s: State, open: Apdu)
    requires s.Valid() && s.writeable && RunInBounds(s, [open]) && WritesLength(open, 0)
    ensures var started := Run(s, [open]).0; LengthOf(started.file) == 0 && started.events == s.events
  {
    var h := Handle(s, open).state;
    assert Run(s, [open]).0 == h;
    HandleFile(s, open, 0);
    HandleFile(s, open, 1);
  }

  lemma Closes(s: State, close: Apdu, n: nat)
    requires s.Valid() && s.writeable && s.attached && InBounds(s, close) && WritesLength(close, n) && n > 0
    ensures var closed := Handle(s, close).state; closed.events == s.events + [Updated(closed.file[2..], n)]
  {
    HandleFile(s, close, 0);
    HandleFile(s, close, 1);
  }

  // ----- the tag as the source runs it

  class EmulateTag {
    const ndefFile: array<Byte>
    var tagWriteable: bool
    var tagWrittenByInitiator: bool
    var attached: bool
    var events: seq<Event>
    // the two locals of the emulation loop that outlive one APDU
    var currentFile: TagFile
    var sendLength: Byte

    ghost predicate Valid() {
      ndefFile.Length == NDEF_MAX_LENGTH
    }

    ghost function View(): (s: State)
      requires Valid()
      reads this, ndefFile
      ensures s.Valid()
    {
      State(ndefFile[..], tagWriteable, attached, events, tagWrittenByInitiator, currentFile, sendLength)
    }

    constructor ()
      ensures Valid() && fresh(ndefFile)
      ensures tagWriteable && !tagWrittenByInitiator && !attached && events == []
    {
      ndefFile := new Byte[NDEF_MAX_LENGTH](_ => 0);
      tagWriteable, tagWrittenByInitiator, attached, events := true, false, false, [];
      currentFile, sendLength := NoFile, 0;
    }

    /** Stores a file of at most 126 bytes behind its length; a longer one changes nothing. */
    method SetNdefFile(ndef: seq<Byte>)
      requires Valid()
      modifies ndefFile
      ensures |ndef| > NDEF_MAX_LENGTH - 2 ==> ndefFile[..] == old(ndefFile[..])
      ensures |ndef| <= NDEF_MAX_LENGTH - 2 ==>
                && LengthOf(ndefFile[..]) == |ndef| && ndefFile[2..2 + |ndef|] == ndef
                && ndefFile[2 + |ndef|..] == old(ndefFile[2 + |ndef|..])
    {
      if |ndef| > NDEF_MAX_LENGTH - 2 {
        return;
      }
      ndefFile[0] := |ndef| / 256;
      ndefFile[1] := |ndef| % 256;
      MemCpy(ndefFile, 2, ndef);
    }

    method SetResponse(rwbuf: array<Byte>, at: nat, sw: seq<Byte>)
      requires at + 2 <= rwbuf.Length == RWBUF_SIZE && |sw| == 2 && rwbuf != ndefFile
      modifies rwbuf, `sendLength
      ensures rwbuf[..at + 2] == old(rwbuf[..at]) + sw
      ensures rwbuf[at + 2..] == old(rwbuf[at + 2..])
      ensures sendLength == at + 2
    {
      rwbuf[at], rwbuf[at + 1] := sw[0], sw[1];
      sendLength := 2 + at;
    }

    method HandleSelect(rwbuf: array<Byte>)
      requires Valid() && rwbuf != ndefFile && rwbuf.Length == RWBUF_SIZE
      requires InBounds(View(), rwbuf[..]) && Ins(rwbuf[..]) == SELECT_FILE
      modifies rwbuf, `sendLength, `currentFile
      ensures View() == Select(old(View()), old(rwbuf[..])).state
      ensures sendLength <= RWBUF_SIZE && rwbuf[..sendLength] == Select(old(View()), old(rwbuf[..])).response
    {
      if rwbuf[2] == 0x00 {
        if rwbuf[3] != 0x0C {
          SetResponse(rwbuf, 0, COMMAND_COMPLETE);
        } else if rwbuf[4] == 2 && rwbuf[5] == 0xE1 && (rwbuf[6] == 0x03 || rwbuf[6] == 0x04) {
          SetResponse(rwbuf, 0, COMMAND_COMPLETE);
          assert rwbuf[6] == rwbuf[2..][4] == old(rwbuf[6]);
          if rwbuf[6] == 0x03 {
            currentFile := CapabilityContainer;
          } else if rwbuf[6] == 0x04 {
            currentFile := NdefFile;
          }
        } else {
          SetResponse(rwbuf, 0, TAG_NOT_FOUND);
        }
      } else if rwbuf[2] == 0x04 {
        if rwbuf[3..12] == APPLICATION_NAME {
          SetResponse(rwbuf, 0, COMMAND_COMPLETE);
        } else {
          SetResponse(rwbuf, 0, FUNCTION_NOT_SUPPORTED);
        }
      }
    }

    method RespondWith(rwbuf: array<Byte>, data: seq<Byte>)
      requires rwbuf != ndefFile && |data| + 2 <= rwbuf.Length == RWBUF_SIZE
      modifies rwbuf, `sendLength
      ensures sendLength == |data| + 2 && rwbuf[..sendLength] == data + COMMAND_COMPLETE
    {
      MemCpy(rwbuf, 0, data);
      assert rwbuf[..|data|] == data;
      SetResponse(rwbuf, |data|, COMMAND_COMPLETE);
    }

    method HandleRead(rwbuf: array<Byte>)
      requires Valid() && rwbuf != ndefFile && rwbuf.Length == RWBUF_SIZE
      requires InBounds(View(), rwbuf[..]) && Ins(rwbuf[..]) == READ_BINARY
      modifies rwbuf, `sendLength
      ensures View() == Read(old(View()), old(rwbuf[..])).state
      ensures sendLength <= RWBUF_SIZE && rwbuf[..sendLength] == Read(old(View()), old(rwbuf[..])).response
    {
      var offset, lc := Offset(rwbuf[..]), rwbuf[4];
      if currentFile == NoFile {
        SetResponse(rwbuf, 0, TAG_NOT_FOUND);
      } else if offset > NDEF_MAX_LENGTH {
        SetResponse(rwbuf, 0, END_OF_FILE);
      } else {
        var source := if currentFile == CapabilityContainer then Container(tagWriteable) else ndefFile[..];
        RespondWith(rwbuf, source[offset..offset + lc]);
      }
    }

    method HandleUpdate(rwbuf: array<Byte>)
      requires Valid() && rwbuf != ndefFile && rwbuf.Length == RWBUF_SIZE
      requires InBounds(View(), rwbuf[..]) && Ins(rwbuf[..]) == UPDATE_BINARY
      modifies rwbuf, ndefFile, `sendLength, `tagWrittenByInitiator, `events
      ensures View() == Update(old(View()), old(rwbuf[..])).state
      ensures sendLength <= RWBUF_SIZE && rwbuf[..sendLength] == Update(old(View()), old(rwbuf[..])).response
    {
      var offset, lc := Offset(rwbuf[..]), rwbuf[4];
      if !tagWriteable {
        SetResponse(rwbuf, 0, FUNCTION_NOT_SUPPORTED);
      } else if offset > NDEF_MAX_LENGTH {
        SetResponse(rwbuf, 0, MEMORY_FAILURE);
      } else {
        assert rwbuf[5..5 + lc] == rwbuf[..][5..5 + lc];
        MemCpy(ndefFile, offset, rwbuf[5..5 + lc]);
        SetResponse(rwbuf, 0, COMMAND_COMPLETE);
        tagWrittenByInitiator := true;
        var n := LengthOf(ndefFile[..]);
        if n > 0 && attached {
          assert ndefFile[2..] == ndefFile[..][2..];
          events := events + [Updated(ndefFile[2..], n)];
        }
      }
    }

    method HandleApdu(rwbuf: array<Byte>)
      requires Valid() && rwbuf != ndefFile && rwbuf.Length == RWBUF_SIZE
      requires InBounds(View(), rwbuf[..])
      modifies this, rwbuf, ndefFile
      ensures View() == Handle(old(View()), old(rwbuf[..])).state
      ensures sendLength <= RWBUF_SIZE && rwbuf[..sendLength] == Handle(old(View()), old(rwbuf[..])).response
    {
      if rwbuf[1] == SELECT_FILE {
        HandleSelect(rwbuf);
      } else if rwbuf[1] == READ_BINARY {
        HandleRead(rwbuf);
      } else if rwbuf[1] == UPDATE_BINARY {
        HandleUpdate(rwbuf);
      } else {
        SetResponse(rwbuf, 0, FUNCTION_NOT_SUPPORTED);
      }
    }

    /**
     The state in which the loop starts: the flag is down, no file is selected and the response
     length is whatever the stack held.
     */
    ghost function Started(garbage: Byte): (s: State)
      requires Valid()
      reads this, ndefFile
      ensures s.Valid()
    {
      View().(written := false, current := NoFile, sendLength := garbage)
    }

    /**
     `activated` is the answer of `tgInitAsTarget`; `script` the buffer after each successful
     `tgGetData`, the first failing one ending the loop. Failures of `tgSetData` never do: its
     boolean result is compared with a negative number.
     */
    method Emulate(activated: bool, script: seq<Apdu>, garbage: Byte) returns (ok: bool, responses: seq<seq<Byte>>)
      requires Valid()
      requires activated ==> RunInBounds(Started(garbage), script)
      modifies this, ndefFile
      ensures ok == activated
      ensures !activated ==> View() == old(View()) && responses == []
      ensures activated ==> (View(), responses) == Run(old(Started(garbage)), script)
    {
      hide Handle, InBounds;
      responses := [];
      if !activated {
        return false, [];
      }
      tagWrittenByInitiator := false;
      currentFile, sendLength := NoFile, garbage;
      var rwbuf := new Byte[RWBUF_SIZE](_ => 0);
      ghost var s0 := View();
      for k := 0 to |script|
        invariant rwbuf != ndefFile && fresh(rwbuf)
        invariant RunInBounds(s0, script[..k]) && RunInBounds(View(), script[k..])
        invariant (View(), responses) == Run(s0, script[..k])
      {
        MemCpy(rwbuf, 0, script[k]);
        assert rwbuf[..] == script[k];
        ghost var next := script[..k + 1];
        assert script == next + script[k + 1..] && next[..k] == script[..k];
        RunAppend(s0, next, script[k + 1..]);
        RunSnoc(s0, next);
        HandleApdu(rwbuf);
        responses := responses + [rwbuf[..sendLength]];
      }
      assert script[..|script|] == script;
      ok := true;
    }

    method GetContent() returns (content: seq<Byte>, length: nat)
      requires Valid()
      ensures content == ndefFile[2..] && length == LengthOf(ndefFile[..])
    {
      content := ndefFile[2..];
      length := LengthOf(ndefFile[..]);
    }
  }
}
