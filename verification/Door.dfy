/**
 The door's reader: one round of tag emulation, then the search of the written message for the
 user identifier and the one-time code, and the end-to-end guarantee for a phone that writes its
 message in any order of chunks.
 */
module Door {
  import opened Bytes
  import opened Options
  import Ndef
  import Tag = EmulatedTag

  const SLASH: Byte := 0x2F
  const KEY: seq<Byte> := [0x6B, 0x65, 0x79]
  const UID: seq<Byte> := [0x75, 0x69, 0x64]
  const OTP: seq<Byte> := [0x6F, 0x74, 0x70]
  /** "key/uid/" and "key/otp/". */
  const UID_KEY: seq<Byte> := KEY + [SLASH] + UID + [SLASH]
  const OTP_KEY: seq<Byte> := KEY + [SLASH] + OTP + [SLASH]

  const UID_LENGTH := 64
  const OTP_LENGTH := 6

  /** `None` stands for a character array that was never filled. */
  datatype ReadResult = ReadResult(good: bool, uid: Option<seq<Byte>>, code: Option<seq<Byte>>)

  /** The decoder may read past the tag's file; then there is no result to speak of. */
  datatype Outcome = Outcome(result: ReadResult) | Fault

  const NOTHING := ReadResult(false, None, None)

  /** Type, slash, identifier. */
  function RecordKey(r: Ndef.Record): seq<Byte> {
    CString(r.typ) + [SLASH] + CString(r.id)
  }

  predicate IsUid(r: Ndef.Record) {
    RecordKey(r) == UID_KEY && |r.payload| == UID_LENGTH
  }

  predicate IsOtp(r: Ndef.Record) {
    RecordKey(r) == OTP_KEY && |r.payload| == OTP_LENGTH
  }

  /** The payload of the last record that satisfies `p`. */
  function LastPayload(rs: seq<Ndef.Record>, p: Ndef.Record -> bool): Option<seq<Byte>> {
    if rs == [] then None
    else if p(rs[|rs| - 1]) then Some(rs[|rs| - 1].payload)
    else LastPayload(rs[..|rs| - 1], p)
  }

  function Count(rs: seq<Ndef.Record>, p: Ndef.Record -> bool): nat {
    if rs == [] then 0 else Count(rs[..|rs| - 1], p) + (if p(rs[|rs| - 1]) then 1 else 0)
  }

  /** The result is good when exactly two records matched, whichever two. */
  function Search(rs: seq<Ndef.Record>): ReadResult {
    ReadResult(Count(rs, IsUid) + Count(rs, IsOtp) == 2, LastPayload(rs, IsUid), LastPayload(rs, IsOtp))
  }

  /** The loop over the decoded records. */
  method SearchRecords(rs: seq<Ndef.Record>) returns (result: ReadResult)
    ensures result == Search(rs)
  {
    var uid, code := None, None;
    var count := 0;
    for i := 0 to |rs|
      invariant uid == LastPayload(rs[..i], IsUid) && code == LastPayload(rs[..i], IsOtp)
      invariant count == Count(rs[..i], IsUid) + Count(rs[..i], IsOtp)
    {
      var record := rs[i];
      var key := RecordKey(record);
      assert rs[..i + 1][..i] == rs[..i];
      assert UID_KEY[4] != OTP_KEY[4];
      if key == UID_KEY {
        if |record.payload| == UID_LENGTH {
          uid := Some(record.payload);
          count := count + 1;
        }
      } else if key == OTP_KEY {
        if |record.payload| == OTP_LENGTH {
          code := Some(record.payload);
          count := count + 1;
        }
      }
    }
    assert rs[..|rs|] == rs;
    result := ReadResult(count == 2, uid, code);
  }

  // ----- what the search means

  /** Two ways to spell each key: the slash may belong to the type or to the identifier. */
  lemma KeySpellings(r: Ndef.Record, name: seq<Byte>)
    requires |name| == 3 && SLASH !in name
    ensures RecordKey(r) == KEY + [SLASH] + name + [SLASH] <==>
            || (CString(r.typ) == KEY + [SLASH] + name && CString(r.id) == [])
            || (CString(r.typ) == KEY && CString(r.id) == name + [SLASH])
  {
    hide CString;
    var t, i := CString(r.typ), CString(r.id);
    var whole := KEY + [SLASH] + name + [SLASH];
    if t + [SLASH] + i == whole {
      assert whole[|t|] == (t + [SLASH] + i)[|t|] == SLASH;
      assert whole[4..7] == name;
      assert |t| == 3 || |t| == 7;
      assert t == (t + [SLASH] + i)[..|t|] == whole[..|t|];
      assert i == (t + [SLASH] + i)[|t| + 1..] == whole[|t| + 1..];
    } else {
      assert KEY + [SLASH] + (name + [SLASH]) == whole;
      assert KEY + [SLASH] + name + [SLASH] + [] == whole;
    }
  }

  lemma {:induction false} Presence(rs: seq<Ndef.Record>, p: Ndef.Record -> bool)
    ensures LastPayload(rs, p).Some? <==> Count(rs, p) > 0
  {
    if rs != [] {
      Presence(rs[..|rs| - 1], p);
    }
  }

  /** The places of the records that match. */
  function Places(rs: seq<Ndef.Record>, p: Ndef.Record -> bool): set<int> {
    set i | 0 <= i < |rs| && p(rs[i])
  }

  lemma {:induction false} CountIsCardinality(rs: seq<Ndef.Record>, p: Ndef.Record -> bool)
    ensures Count(rs, p) == |Places(rs, p)|
  {
    if rs == [] {
      assert Places(rs, p) == {};
    } else {
      var n := |rs| - 1;
      CountIsCardinality(rs[..n], p);
      assert Places(rs, p) == Places(rs[..n], p) + if p(rs[n]) then {n} else {};
    }
  }

  lemma {:induction false} LastMatchWins(rs: seq<Ndef.Record>, p: Ndef.Record -> bool, k: nat)
    requires k < |rs| && p(rs[k]) && forall j :: k < j < |rs| ==> !p(rs[j])
    ensures LastPayload(rs, p) == Some(rs[k].payload)
  {
    if k < |rs| - 1 {
      LastMatchWins(rs[..|rs| - 1], p, k);
    }
  }

  /** The search is good exactly when two records match, counting both kinds. */
  lemma GoodIff(rs: seq<Ndef.Record>)
    ensures Search(rs).good <==> |Places(rs, IsUid)| + |Places(rs, IsOtp)| == 2
  {
    hide Count, LastPayload, Places;
    CountIsCardinality(rs, IsUid);
    CountIsCardinality(rs, IsOtp);
  }

  function Ascii(text: string): seq<Byte> {
    seq(|text|, i requires 0 <= i < |text| => text[i] as int % 256)
  }

  /** A record matches by its type and identifier and by the length of its payload, both. */
  lemma MatchesIff(r: Ndef.Record)
    ensures IsUid(r) <==>
            && ((CString(r.typ) == Ascii("key/uid") && CString(r.id) == []) || (CString(r.typ) == Ascii("key") && CString(r.id) == Ascii("uid/")))
            && |r.payload| == 64
    ensures IsOtp(r) <==>
            && ((CString(r.typ) == Ascii("key/otp") && CString(r.id) == []) || (CString(r.typ) == Ascii("key") && CString(r.id) == Ascii("otp/")))
            && |r.payload| == 6
  {
    hide RecordKey, CString;
    KeysAreText();
    KeySpellings(r, UID);
    KeySpellings(r, OTP);
  }

  lemma KeysAreText()
    ensures KEY == Ascii("key") && UID + [SLASH] == Ascii("uid/") && OTP + [SLASH] == Ascii("otp/")
    ensures KEY + [SLASH] + UID == Ascii("key/uid") && KEY + [SLASH] + OTP == Ascii("key/otp")
  {
  }

  /** A good result carries both fields exactly when one record of each kind matched. */
  lemma GoodIsCompleteIff(rs: seq<Ndef.Record>)
    requires Search(rs).good
    ensures Search(rs).uid.Some? && Search(rs).code.Some? <==> Count(rs, IsUid) == 1 && Count(rs, IsOtp) == 1
  {
    hide LastPayload, Count;
    Presence(rs, IsUid);
    Presence(rs, IsOtp);
  }

  const SOME_CODE := Ndef.Record(4, KEY + [SLASH] + OTP, [], [0x30, 0x30, 0x30, 0x30, 0x30, 0x30])

  /** Two one-time codes are reported as good, with no user identifier at all. */
  lemma TwoCodesAreGood()
    ensures Search([SOME_CODE, SOME_CODE]) == ReadResult(true, None, Some(SOME_CODE.payload))
  {
    var r := SOME_CODE;
    assert RecordKey(r) == OTP_KEY;
    assert UID_KEY[4] != OTP_KEY[4];
    assert IsOtp(r) && !IsUid(r);
    Twice(r, IsOtp);
    Twice(r, IsUid);
  }

  lemma Twice(r: Ndef.Record, p: Ndef.Record -> bool)
    ensures Count([r, r], p) == if p(r) then 2 else 0
    ensures LastPayload([r, r], p) == if p(r) then Some(r.payload) else None
  {
    assert [r, r][..1] == [r] && [r][..0] == [];
    assert Count([r], p) == if p(r) then 1 else 0;
    assert LastPayload([r], p) == if p(r) then Some(r.payload) else None;
  }

  lemma {:induction false} OnlyOne(rs: seq<Ndef.Record>, p: Ndef.Record -> bool, k: nat)
    requires k < |rs| && p(rs[k])
    requires forall j :: 0 <= j < |rs| && j != k ==> !p(rs[j])
    ensures Count(rs, p) == 1 && LastPayload(rs, p) == Some(rs[k].payload)
  {
    var n := |rs| - 1;
    if k == n {
      NoneOf(rs[..n], p);
    } else {
      OnlyOne(rs[..n], p, k);
    }
  }

  lemma {:induction false} NoneOf(rs: seq<Ndef.Record>, p: Ndef.Record -> bool)
    requires forall r :: r in rs ==> !p(r)
    ensures Count(rs, p) == 0
  {
    if rs != [] {
      NoneOf(rs[..|rs| - 1], p);
    }
  }

  /** One user identifier and one code among the records, in either order. */
  predicate Credentials(rs: seq<Ndef.Record>, u: nat, o: nat) {
    && u < |rs| && o < |rs| && u != o
    && IsUid(rs[u]) && IsOtp(rs[o])
    && forall j :: 0 <= j < |rs| && j != u && j != o ==> !IsUid(rs[j]) && !IsOtp(rs[j])
  }

  lemma CredentialsAreFound(rs: seq<Ndef.Record>, u: nat, o: nat)
    requires Credentials(rs, u, o)
    ensures Search(rs) == ReadResult(true, Some(rs[u].payload), Some(rs[o].payload))
  {
    hide LastPayload, Count, RecordKey;
    assert UID_KEY[4] != OTP_KEY[4];
    OnlyOne(rs, IsUid, u);
    OnlyOne(rs, IsOtp, o);
  }

  // ----- one round of the door

  /** What a round makes of the tag as the emulation left it. */
  function ReadTag(s: Tag.State): Outcome
    requires s.Valid()
  {
    if !s.written then Outcome(NOTHING) else ReadFile(s)
  }

  /** What the message in the file gives. */
  function ReadFile(s: Tag.State): Outcome
    requires s.Valid()
  {
    match Ndef.Decode(s.file[2..], Tag.LengthOf(s.file))
    case Fault => Fault
    case Decoded(rs) => Outcome(Search(rs))
  }

  /** The tag as an activated emulation finds it. */
  function Start(s: Tag.State, garbage: Byte): Tag.State {
    s.(written := false, current := Tag.NoFile, sendLength := garbage)
  }

  /** The tag after a round: an emulation that is not activated leaves it alone, the written flag included. */
  function AfterRound(s: Tag.State, activated: bool, script: seq<Tag.Apdu>, garbage: Byte): (t: Tag.State)
    requires s.Valid() && (activated ==> Tag.RunInBounds(Start(s, garbage), script))
    ensures t.Valid() && t.writeable
  {
    (if activated then Tag.Run(Start(s, garbage), script).0 else s).(writeable := true)
  }

  /** `n` rounds in which no reader shows up. */
  function AfterIdle(s: Tag.State, n: nat): (t: Tag.State)
    requires s.Valid()
    ensures t.Valid()
  {
    if n == 0 then s else AfterRound(AfterIdle(s, n - 1), false, [], 0)
  }

  /** However many rounds pass idle, each reports the last message again. */
  lemma {:induction false} IdleRoundsRepeat(s: Tag.State, n: nat)
    requires s.Valid()
    ensures ReadTag(AfterIdle(s, n)) == ReadTag(s)
  {
    hide Ndef.Decode, Search, Tag.Run, Tag.LengthOf, Tag.RunInBounds;
    if n > 0 {
      IdleRoundsRepeat(s, n - 1);
    }
  }

  /**
   What the idle rounds after an activated one report: the message in the file, exactly if the tag
   was writeable and some update passed its check in the last activated round; else nothing.
   */
  lemma IdleRoundsReportIff(s: Tag.State, script: seq<Tag.Apdu>, garbage: Byte, n: nat)
    requires s.Valid() && Tag.RunInBounds(Start(s, garbage), script)
    ensures var left := AfterRound(s, true, script, garbage);
            ReadTag(AfterIdle(left, n)) ==
            if s.writeable && Tag.HasUpdate(script) then ReadFile(left) else Outcome(NOTHING)
  {
    hide Tag.Run, Tag.RunInBounds, ReadFile;
    var left := AfterRound(s, true, script, garbage);
    Tag.WrittenIffUpdated(Start(s, garbage), script);
    IdleRoundsRepeat(left, n);
  }

  class Nfc {
    const tag: Tag.EmulateTag

    constructor ()
      ensures tag.Valid() && tag.tagWriteable && !tag.attached && fresh(tag) && fresh(tag.ndefFile)
    {
      tag := new Tag.EmulateTag();
    }

    /** The tag is made writeable after the emulation, whatever its outcome. */
    method TryGet(activated: bool, script: seq<Tag.Apdu>, garbage: Byte) returns (r: Outcome)
      requires tag.Valid()
      requires activated ==> Tag.RunInBounds(tag.Started(garbage), script)
      modifies tag, tag.ndefFile
      ensures tag.View() == AfterRound(old(tag.View()), activated, script, garbage)
      ensures r == ReadTag(tag.View())
    {
      hide Ndef.Decode, Search;
      var ok, _ := tag.Emulate(activated, script, garbage);
      ghost var left := tag.View();
      tag.tagWriteable := true;
      if !tag.tagWrittenByInitiator {
        return Outcome(NOTHING);
      }
      var content, length := tag.GetContent();
      assert content == left.file[2..];
      var message := Ndef.DecodeMessage(content, length);
      if message.Fault? {
        return Fault;
      }
      var result := SearchRecords(message.records);
      r := Outcome(result);
    }
  }

  // ----- end to end

  /** The file a phone wants to leave: a two-byte length and the encoded message. */
  function Wanted(rs: seq<Ndef.Record>): seq<Byte> {
    var e := Ndef.EncodeMessage(rs);
    [(|e| / 256) % 256, |e| % 256] + e
  }

  /**
   If the latest writes leave `Wanted(rs)` at the start of the file, the door finds in it what it
   finds in the records, whatever the rest of the run and of the file.
   */
  lemma WrittenRecordsAreSearched(s: Tag.State, trace: seq<Tag.Apdu>, rs: seq<Ndef.Record>)
    requires s.Valid() && s.writeable && Tag.RunInBounds(s, trace) && Tag.HasUpdate(trace)
    requires 1 <= |rs| <= Ndef.MAX_NDEF_RECORDS && Ndef.AllCodable(rs)
    requires |Wanted(rs)| <= Tag.NDEF_MAX_LENGTH
    requires forall i :: 0 <= i < |Wanted(rs)| ==> Tag.LastWritten(s.file, trace, i) == Wanted(rs)[i]
    ensures ReadTag(Tag.Run(s, trace).0) == Outcome(Search(rs))
  {
    hide Ndef.Decode, Search, Ndef.EncodeMessage, Tag.LastWritten, Tag.RunInBounds, Tag.Run, Ndef.AllCodable;
    var wanted, e := Wanted(rs), Ndef.EncodeMessage(rs);
    var last := Tag.Run(s, trace).0;
    Tag.WrittenIffUpdated(s, trace);
    forall i | 0 <= i < |wanted|
      ensures last.file[i] == wanted[i]
    {
      Tag.FileHoldsLastWritten(s, trace, i);
    }
    FileHolds(last.file, e);
    Ndef.RoundTrip(rs, last.file[2 + |e|..], |e|);
  }

  /** A file that begins with a length and that many bytes. */
  lemma FileHolds(file: seq<Byte>, e: seq<Byte>)
    requires |file| == Tag.NDEF_MAX_LENGTH && |e| + 2 <= |file|
    requires forall i :: 0 <= i < |e| + 2 ==> file[i] == ([(|e| / 256) % 256, |e| % 256] + e)[i]
    ensures Tag.LengthOf(file) == |e|
    ensures file[2..] == e + file[2 + |e|..]
  {
    var wanted := [(|e| / 256) % 256, |e| % 256] + e;
    assert file[0] == wanted[0] == 0 && file[1] == wanted[1] == |e|;
    forall i | 0 <= i < |e|
      ensures file[2..][i] == e[i]
    {
      assert file[i + 2] == wanted[i + 2];
    }
  }

  /** Every byte this update puts at offset 2 and beyond belongs where it is put. */
  predicate ChunkOf(b: Tag.Apdu, wanted: seq<Byte>) {
    forall i :: 2 <= i < |wanted| && Tag.Covers(b, i) ==> b[5 + i - Tag.Offset(b)] == wanted[i]
  }

  predicate CoveredBy(chunks: seq<Tag.Apdu>, i: nat) {
    exists b :: b in chunks && Tag.Covers(b, i)
  }

  /**
   Chunks of the message in any order, with any overlap and any repetition, between any other
   commands, leave every covered byte as wanted.
   */
  lemma {:induction false} ChunksAddUp(initial: seq<Byte>, chunks: seq<Tag.Apdu>, wanted: seq<Byte>, i: nat)
    requires 2 <= i < |wanted| && i < |initial|
    requires forall b :: b in chunks ==> ChunkOf(b, wanted)
    requires CoveredBy(chunks, i)
    ensures Tag.LastWritten(initial, chunks, i) == wanted[i]
    decreases |chunks|
  {
    hide Tag.Covers;
    var prefix, b := chunks[..|chunks| - 1], chunks[|chunks| - 1];
    assert ChunkOf(b, wanted);
    if !Tag.Covers(b, i) {
      assert forall a :: a in chunks <==> a in prefix || a == b;
      ChunksAddUp(initial, prefix, wanted, i);
    }
  }

  /** `chunks` and then `close` hand over the records: the message in any order, and its length. */
  predicate HandsOver(chunks: seq<Tag.Apdu>, close: Tag.Apdu, rs: seq<Ndef.Record>) {
    && (forall b :: b in chunks ==> ChunkOf(b, Wanted(rs)))
    && (forall i :: 2 <= i < |Wanted(rs)| ==> CoveredBy(chunks, i))
    && Tag.IsUpdate(close) && Tag.Offset(close) == 0 && Tag.Lc(close) == 2 && close[5..7] == Wanted(rs)[..2]
  }

  /**
   End to end. A message of one to four codable records that fits the tag is written to a writeable
   tag by chunks that cover it, in any order, and then by its length; the door's round ends with what
   the search finds in exactly these records.
   */
  lemma DoorSearchesWhatThePhoneWrote(s: Tag.State, chunks: seq<Tag.Apdu>, close: Tag.Apdu, rs: seq<Ndef.Record>)
    requires s.Valid() && s.writeable && Tag.RunInBounds(s, chunks + [close])
    requires 1 <= |rs| <= Ndef.MAX_NDEF_RECORDS && Ndef.AllCodable(rs)
    requires |Wanted(rs)| <= Tag.NDEF_MAX_LENGTH && HandsOver(chunks, close, rs)
    ensures ReadTag(Tag.Run(s, chunks + [close]).0) == Outcome(Search(rs))
  {
    hide Tag.RunInBounds, Tag.Run, Ndef.AllCodable, ChunkOf, CoveredBy, Ndef.EncodeMessage, ReadTag, Search;
    var trace, wanted := chunks + [close], Wanted(rs);
    assert trace[..|trace| - 1] == chunks && close in trace;
    forall i | 0 <= i < |wanted|
      ensures Tag.LastWritten(s.file, trace, i) == wanted[i]
    {
      if i < 2 {
        assert close[5 + i] == close[5..7][i] == wanted[..2][i];
      } else {
        ChunksAddUp(s.file, chunks, wanted, i);
      }
    }
    WrittenRecordsAreSearched(s, trace, rs);
  }

  /** With exactly one user identifier and one code among the records, these two are reported. */
  lemma DoorReadsWhatThePhoneWrote(s: Tag.State, chunks: seq<Tag.Apdu>, close: Tag.Apdu,
                                   rs: seq<Ndef.Record>, u: nat, o: nat)
    requires s.Valid() && s.writeable && Tag.RunInBounds(s, chunks + [close])
    requires |rs| <= Ndef.MAX_NDEF_RECORDS && Ndef.AllCodable(rs) && Credentials(rs, u, o)
    requires |Wanted(rs)| <= Tag.NDEF_MAX_LENGTH && HandsOver(chunks, close, rs)
    ensures ReadTag(Tag.Run(s, chunks + [close]).0) ==
            Outcome(ReadResult(true, Some(rs[u].payload), Some(rs[o].payload)))
  {
    hide Tag.RunInBounds, Tag.Run, Ndef.AllCodable, HandsOver, Ndef.EncodeMessage, ReadTag, Search, IsUid, IsOtp;
    CredentialsAreFound(rs, u, o);
    DoorSearchesWhatThePhoneWrote(s, chunks, close, rs);
  }

  // ----- a session for every message

  /** An UPDATE BINARY of `data` at `offset`. */
  function UpdateOf(offset: Byte, data: seq<Byte>): Tag.Apdu
    requires |data| <= 123
  {
    [0, Tag.UPDATE_BINARY, 0, offset, |data|] + data + seq(123 - |data|, _ => 0)
  }

  lemma UpdateFields(offset: Byte, data: seq<Byte>)
    requires |data| <= 123 && offset + |data| <= 128
    ensures var b := UpdateOf(offset, data);
            && Tag.IsUpdate(b) && Tag.Offset(b) == offset && Tag.Lc(b) == |data| && b[5..5 + |data|] == data
            && (forall s: Tag.State :: Tag.InBounds(s, b))
            && (forall i: nat :: Tag.Covers(b, i) <==> offset <= i < offset + |data|)
  {
  }

  function UidRecord(uid: seq<Byte>): Ndef.Record {
    Ndef.Record(4, KEY + [SLASH] + UID, [], uid)
  }

  function CodeRecord(code: seq<Byte>): Ndef.Record {
    Ndef.Record(4, KEY + [SLASH] + OTP, [], code)
  }

  lemma BothRecords(uid: seq<Byte>, code: seq<Byte>)
    requires |uid| == UID_LENGTH && |code| == OTP_LENGTH
    ensures var rs := [UidRecord(uid), CodeRecord(code)];
            Ndef.AllCodable(rs) && Credentials(rs, 0, 1) && |Ndef.EncodeMessage(rs)| == 90
  {
    var u, c := UidRecord(uid), CodeRecord(code);
    assert RecordKey(u) == UID_KEY && RecordKey(c) == OTP_KEY;
    var rs := [u, c];
    Ndef.EncodedLength(rs, true);
    assert rs[1..] == [c] && [c][1..] == [];
    assert Ndef.MessageSize([c]) == Ndef.RecordSize(c) + Ndef.MessageSize([]);
    assert Ndef.MessageSize(rs) == Ndef.RecordSize(u) + Ndef.MessageSize([c]);
  }

  /** One update that holds all of the message. */
  lemma OneChunk(wanted: seq<Byte>)
    requires 2 <= |wanted| <= 125
    ensures var chunk := UpdateOf(2, wanted[2..]);
            ChunkOf(chunk, wanted) && forall i :: 2 <= i < |wanted| ==> CoveredBy([chunk], i)
  {
    hide UpdateOf, Tag.Covers, Tag.InBounds, Tag.IsUpdate;
    var data := wanted[2..];
    var chunk := UpdateOf(2, data);
    UpdateFields(2, data);
    assert chunk in [chunk];
    forall i | 2 <= i < |wanted|
      ensures chunk[3 + i] == wanted[i] && CoveredBy([chunk], i)
    {
      assert chunk[5..5 + |data|][i - 2] == data[i - 2];
      assert Tag.Covers(chunk, i);
    }
  }

  lemma TwoInBounds(s: Tag.State, a: Tag.Apdu, b: Tag.Apdu)
    requires s.Valid() && forall t: Tag.State :: Tag.InBounds(t, a) && Tag.InBounds(t, b)
    ensures Tag.RunInBounds(s, [a] + [b])
  {
    hide Tag.Handle, Tag.InBounds;
    var trace := [a] + [b];
    assert trace[0] == a && trace[1..] == [b] && [b][1..] == [];
    var next := Tag.Handle(s, a).state;
    assert Tag.RunInBounds(Tag.Handle(next, b).state, []);
    assert Tag.RunInBounds(next, [b]);
  }

  /** One update with the message and one with its length, whatever the tag held before. */
  function SessionFor(rs: seq<Ndef.Record>): seq<Tag.Apdu>
    requires |Wanted(rs)| <= 125
  {
    [UpdateOf(2, Wanted(rs)[2..])] + [UpdateOf(0, Wanted(rs)[..2])]
  }

  /** Every message that fits one update can be handed over, and is then what the door searches. */
  lemma EveryMessageGetsThrough(s: Tag.State, rs: seq<Ndef.Record>)
    requires s.Valid() && s.writeable && 1 <= |rs| <= Ndef.MAX_NDEF_RECORDS && Ndef.AllCodable(rs)
    requires |Wanted(rs)| <= 125
    ensures Tag.RunInBounds(s, SessionFor(rs))
    ensures ReadTag(Tag.Run(s, SessionFor(rs)).0) == Outcome(Search(rs))
  {
    hide Tag.Run, Tag.RunInBounds, Tag.InBounds, Tag.Covers, Tag.IsUpdate, Ndef.AllCodable, Ndef.EncodeMessage, ReadTag, UpdateOf, ChunkOf, CoveredBy, Search;
    var wanted := Wanted(rs);
    var chunk, close := UpdateOf(2, wanted[2..]), UpdateOf(0, wanted[..2]);
    OneChunk(wanted);
    UpdateFields(2, wanted[2..]);
    UpdateFields(0, wanted[..2]);
    TwoInBounds(s, chunk, close);
    DoorSearchesWhatThePhoneWrote(s, [chunk], close, rs);
  }

  /** Every user identifier and every code can be handed over. */
  lemma AnyCredentialsGetThrough(s: Tag.State, uid: seq<Byte>, code: seq<Byte>)
    requires s.Valid() && s.writeable && |uid| == UID_LENGTH && |code| == OTP_LENGTH
    ensures exists trace :: Tag.RunInBounds(s, trace) &&
              ReadTag(Tag.Run(s, trace).0) == Outcome(ReadResult(true, Some(uid), Some(code)))
  {
    hide Tag.Run, Tag.RunInBounds, Ndef.AllCodable, Ndef.EncodeMessage, ReadTag, SessionFor, Search, Credentials;
    var rs := [UidRecord(uid), CodeRecord(code)];
    BothRecords(uid, code);
    CredentialsAreFound(rs, 0, 1);
    EveryMessageGetsThrough(s, rs);
  }

  /** And so can two codes: the door then reports a good result without any user identifier. */
  lemma TwoCodesGetThrough(s: Tag.State)
    requires s.Valid() && s.writeable
    ensures exists trace :: Tag.RunInBounds(s, trace) &&
              ReadTag(Tag.Run(s, trace).0) == Outcome(ReadResult(true, None, Some(SOME_CODE.payload)))
  {
    hide Tag.Run, Tag.RunInBounds, Ndef.EncodeMessage, ReadTag, SessionFor, Search, Ndef.RecordSize;
    var rs := [SOME_CODE, SOME_CODE];
    TwoCodesAreGood();
    TwoCodesAreShort();
    EveryMessageGetsThrough(s, rs);
  }

  lemma TwoCodesAreShort()
    ensures Ndef.AllCodable([SOME_CODE, SOME_CODE]) && |Ndef.EncodeMessage([SOME_CODE, SOME_CODE])| == 32
  {
    var rs := [SOME_CODE, SOME_CODE];
    Ndef.EncodedLength(rs, true);
    assert rs[1..] == [SOME_CODE] && [SOME_CODE][1..] == [];
    assert Ndef.MessageSize([SOME_CODE]) == Ndef.RecordSize(SOME_CODE) + Ndef.MessageSize([]);
    assert Ndef.MessageSize(rs) == Ndef.RecordSize(SOME_CODE) + Ndef.MessageSize([SOME_CODE]);
  }
}
