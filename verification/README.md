# Verified models of the NFC door lock and its libraries

This project states, in Dafny, what the hardest parts of the door lock firmware and its libraries
compute, and proves it.

- **The NFC stack.** `Frame.dfy` is the PN532's serial framing, `Link.dfy` its target data commands,
  `Llcp.dfy` and `Snep.dfy` the peer-to-peer layers, which share one packet buffer and shift data in
  place, `Dialogue.dfy` what whole conversations with a peer come to. `EmulatedTag.dfy` is the
  emulated Type 4 tag as a state machine over APDUs, `Ndef.dfy` the message codec, `Door.dfy` the
  door's own record matching, and `MifareClassic.dfy` block storage on a card. `Bytes.dfy` holds
  bytes, sums and memory copies.
- **The Redis client.** `Resp.dfy` is the printer and the recursive parser, which leaves the CRLF
  after a bulk string to the next parse; `Server.dfy` is the server's side of it.
- **The raster engine.** `Raster.dfy` is pixel storage in words, bytes and half bytes,
  `Plotting.dfy` drawing pixel by pixel as the reference, `Sprite.dfy` the sprite object with its
  packed fills, lines, write window and in-place scrolling, `Line.dfy`, `Window.dfy` and `Scroll.dfy`
  what these mean, `Glyph.dfy` the three ways of painting run-length encoded characters, and
  `Utf8.dfy` the two UTF-8 decoders.

Code that works by changing things is modelled by classes and methods; each is proved against a
function or a predicate, and what the repository promises is proved about those for all inputs and
all runs. `dafny verify dfyconfig.toml` checks everything.

How the source is represented:

- Bytes are integers from 0 to 255; every 8-bit or 16-bit wrap-around and every cast to a signed type
  that matters is written out. Coordinates and lengths of the display code are unbounded integers.
- A read or write outside the memory it is meant for has no defined result in the source. Decoders
  return `Fault`, `PastBlock`, `OutOfBounds`, `Undefined` or `Unknown` there; for the tag, APDUs that
  would make a copy leave its buffer are excluded (`InBounds`), because the code checks only the offset.
- Devices are parameters: the bytes that arrive on a line, the replies of the chip, the answers of a
  card, the APDUs of a phone. All sequences of them are quantified over.
- An APDU of the emulated tag is the whole 128-byte buffer after `tgGetData`, so that bytes left by
  earlier exchanges are covered. A failing `tgSetData` never ends that loop, since a truth value is
  compared with zero (`arduino-libraries/PN532/emulatetag.cpp:257-258`). UPDATE BINARY writes the NDEF
  file whichever file is selected.
- Response frames are read from a line that delivers every byte asked for (`Supplied`): start code,
  length, and then as many bytes as the length says. The count comes back through a signed byte, so
  that payloads over 127 bytes are refused.
- A buffer on the stack holds arbitrary bytes before it is filled; they are a parameter wherever the
  code can come to read them.

Where the code does less than its purpose, the model follows the code and the exact condition is proved:
long NDEF payloads are misread (`Ndef.RoundTrip`, `Ndef.LongPayloadIsLost`); two matching records of
one kind pass for a good result (`Door.GoodIsCompleteIff`, `Door.TwoCodesGetThrough`); a round that
finds no reader reports the last message again (`Door.IdleRoundsReportIff`); a link read that fails in
its own turn can pass for a put (`Snep.Session.Read`, `Snep.StaleBufferCanBeAccepted`); a message too
large for the card wraps round to block 0 (`MifareClassic.SafeIff`), and one behind null TLVs may be
read past the buffer (`MifareClassic.ReadBehindNulls`); null bulk strings and lines with
CR change in transit (`Resp.ValueRoundTrip`), and some values print differently the second time
(`Resp.PrintsAgainIff`); a put frame over 244 bytes has a wrong length byte (`Snep.PutFrameLength`); a
window clipped to a viewport larger than the sprite can store behind it (`Window.StoresAreInsideIff`,
`Window.WideViewportLeavesTheArray`); a scroll through a viewport that does not show its gap leaves it
(`Scroll.FillsAreGapIff`), and 4-bit sprites lose a column when they scroll right
(`Scroll.NibblesMissAColumn`, `Scroll.NibblesCanBeWrong`).

## Model

| member | source | states |
|---|---|---|
| `Door.DoorSearchesWhatThePhoneWrote` | door-verifier/nfc.cpp:17-60 | End to end: for every message of one to four codable records that fits the tag, any sequence of in-range updates whose bytes agree with the encoded message and together cover it, in any order and with overlaps, followed by the update of the length field, makes the door report exactly what the search finds in those records |
| `Door.DoorReadsWhatThePhoneWrote` | door-verifier/nfc.cpp:17-60 | With exactly one user identifier and one code among the records, in either order, that is a good result with exactly those two payloads |
| `Door.EveryMessageGetsThrough` | door-verifier/nfc.cpp:17-60 | Two given updates hand over any message that fits one of them, whatever the writeable tag held before |
| `Door.AnyCredentialsGetThrough` | door-verifier/nfc.cpp:17-60 | For every 64-byte user identifier, every 6-byte code and every writeable tag, some in-bounds sequence of updates makes the door report exactly these two |
| `Door.TwoCodesGetThrough` | door-verifier/nfc.cpp:17-60 | Counterexample end to end: some in-bounds sequence of updates makes the door report a good result without any user identifier |
| `Door.IdleRoundsReportIff` | door-verifier/nfc.cpp:21-28 | However many rounds pass without activation after an activated one, each reports the message in the file if and only if that round accepted an update, since only activation clears the written flag |
| `Door.IdleRoundsRepeat` | arduino-libraries/PN532/emulatetag.cpp:105-109 | A round without activation reports what the round before it reported |
| `Door.WrittenRecordsAreSearched` | door-verifier/nfc.cpp:17-60 | The same for any run at all whose latest writes leave the encoded message at the start of the file |
| `Door.ChunksAddUp` | arduino-libraries/PN532/emulatetag.cpp:225-249 | Overlapping chunks of one file, in any order, leave that file wherever they reach |
| `Door.CredentialsAreFound` | door-verifier/nfc.cpp:36-56 | With one record of each kind among any others, the search is good and returns both payloads |
| `Door.GoodIsCompleteIff` | door-verifier/nfc.cpp:36-56 | A good result carries both fields if and only if exactly one record of each kind matched |
| `Door.TwoCodesAreGood` | door-verifier/nfc.cpp:54-56 | Counterexample: two code records are reported good without any user identifier |
| `Door.KeySpellings` | door-verifier/nfc.cpp:39-46 | The record key compares equal for exactly two spellings: the slash in the type, or in the identifier |
| `Door.MatchesIff` | door-verifier/nfc.cpp:38-52 | A record counts as user identifier or as code if and only if both its key, spelled in one of the two ways, and its payload length, 64 or 6, are right |
| `Door.GoodIff` | door-verifier/nfc.cpp:54-56 | The result is good if and only if the matching places number exactly two |
| `Door.LastMatchWins` | door-verifier/nfc.cpp:40-51 | Of several matches of a kind the last payload is reported |
| `Door.SearchRecords` | door-verifier/nfc.cpp:36-56 | The loop over the records returns the last matching payload of each kind and is good exactly when two records matched |
| `Door.Nfc.TryGet` | door-verifier/nfc.cpp:17-60 | One round: the tag state it leaves, and as its result what the records decoded from that tag give, nothing if nothing was written; a failed activation leaves the tag as it was |
| `EmulatedTag.FileHoldsLastWritten` | arduino-libraries/PN532/emulatetag.cpp:138-263 | After every in-bounds run each byte of the file is the last one written there, or the initial one if none was or the tag is read-only |
| `EmulatedTag.ReadBack` | arduino-libraries/PN532/emulatetag.cpp:195-223 | READ BINARY of the NDEF file after any run answers the last-written bytes of the range, followed by 90 00 |
| `EmulatedTag.ReadAnswersFromTheLog` | arduino-libraries/PN532/emulatetag.cpp:195-224 | READ BINARY after any run, from the log alone: 6A 82 if no file was selected, 62 82 past the end, and else the bytes of the file last selected, the container for E103 and the last-written bytes for E104, followed by 90 00 |
| `EmulatedTag.CurrentIsLastSelected` | arduino-libraries/PN532/emulatetag.cpp:155-182 | The file selected after any run is the one in the last SELECT by identifier that names an existing file |
| `EmulatedTag.OtherAnswers` | arduino-libraries/PN532/emulatetag.cpp:155-255 | The answer to every other command, byte for byte |
| `EmulatedTag.UnansweredSelect` | arduino-libraries/PN532/emulatetag.cpp:155-194 | A SELECT in any other way sets no answer: as many of its own bytes are sent as the answer before it had |
| `EmulatedTag.ApduFields` | arduino-libraries/PN532/emulatetag.cpp:148-151 | Instruction, offset with the high byte first, and length |
| `EmulatedTag.ReadOnlyIsReadOnly` | arduino-libraries/PN532/emulatetag.cpp:225-232 | No run changes the file of a read-only tag, sets its written flag or calls the callback |
| `EmulatedTag.WrittenIffUpdated` | arduino-libraries/PN532/emulatetag.cpp:226-241 | The written flag is raised by a run if and only if the tag is writeable and some update passed the offset check |
| `EmulatedTag.SilentWhileLengthIsZero` | arduino-libraries/PN532/emulatetag.cpp:236-244 | While the length field is zero and nothing writes it, the callback is never called |
| `EmulatedTag.OneCallbackPerSession` | arduino-libraries/PN532/emulatetag.cpp:225-249 | A session that zeroes the length, writes only from offset 2 on and then sets a nonzero length calls the callback exactly once, with the complete message |
| `EmulatedTag.CallbackIff` | arduino-libraries/PN532/emulatetag.cpp:238-246 | The callback is called, with the file behind its length field, if and only if one is attached and an accepted update leaves a nonzero length |
| `EmulatedTag.HandleFile` | arduino-libraries/PN532/emulatetag.cpp:225-249 | One APDU changes exactly the bytes its update covers |
| `EmulatedTag.RunAppend` | arduino-libraries/PN532/emulatetag.cpp:138-263 | Runs compose: state and responses of a concatenation |
| `EmulatedTag.EmulateTag.Emulate` | arduino-libraries/PN532/emulatetag.cpp:79-266 | The loop of the source performs exactly the specified run and sends exactly its responses |
| `EmulatedTag.EmulateTag.HandleApdu` | arduino-libraries/PN532/emulatetag.cpp:138-263 | One turn of the loop: new tag state and the bytes in the read-write buffer are those of the specification |
| `EmulatedTag.EmulateTag.HandleSelect` | arduino-libraries/PN532/emulatetag.cpp:155-194 | SELECT by identifier or by application name |
| `EmulatedTag.EmulateTag.HandleRead` | arduino-libraries/PN532/emulatetag.cpp:195-224 | READ BINARY of no file, the container or the NDEF file, with the offset check |
| `EmulatedTag.EmulateTag.HandleUpdate` | arduino-libraries/PN532/emulatetag.cpp:225-249 | UPDATE BINARY: refusals, the copy, the flag and the callback |
| `EmulatedTag.EmulateTag.SetResponse` | arduino-libraries/PN532/emulatetag.cpp:268-298 | The status word is placed behind the data and the length set |
| `EmulatedTag.EmulateTag.SetNdefFile` | arduino-libraries/PN532/emulatetag.cpp:61-72 | A file that fits is stored behind its length and the bytes behind it are kept; a longer one changes nothing |
| `EmulatedTag.EmulateTag.GetContent` | arduino-libraries/PN532/emulatetag.h:43-47 | Content and length of the file as stored |
| `Ndef.RoundTrip` | arduino-libraries/NDEF/NdefMessage.cpp:8-80 | For every message of at most four records, followed in memory by any bytes, decoding the encoding returns the records if and only if there is a record and all records are codable |
| `Ndef.RecordRoundTrip` | arduino-libraries/NDEF/NdefMessage.cpp:22-77 | A codable record is read back whole and the index moves exactly over its bytes |
| `Ndef.RecordRoundTripNecessary` | arduino-libraries/NDEF/NdefMessage.cpp:45-57 | Only codable records are read back: type and identifier up to 255 bytes, a three-bit TNF, and a payload up to 255 bytes or of the one length at which the misread length field agrees |
| `Ndef.LongPayloadIsLost` | arduino-libraries/NDEF/NdefMessage.cpp:45-57 | Counterexample: a 256-byte payload comes back as one byte, because the long length is read from the type-length byte on |
| `Ndef.TailRoundTrip` | arduino-libraries/NDEF/NdefMessage.cpp:20-79 | The decoding loop in the middle of a message: records already found are kept and the rest follow in order, if and only if they are codable |
| `Ndef.FoundIsPrefix` | arduino-libraries/NDEF/NdefMessage.cpp:20-79 | Decoding any bytes never loses or changes a record already found |
| `Ndef.DecodesSomething` | arduino-libraries/NDEF/NdefMessage.cpp:20-79 | Decoding anything, even zero bytes, never yields the empty message |
| `Ndef.EncodedFrom` | arduino-libraries/NDEF/NdefMessage.cpp:135-147 | Record k begins at the sum of the sizes before it |
| `Ndef.EncodedLength` | arduino-libraries/NDEF/NdefMessage.cpp:124-133 | The encoding is exactly as long as the computed size |
| `Ndef.MarkersBracketTheMessage` | arduino-libraries/NDEF/NdefRecord.cpp:183-209 | Message begin is set on the first record only and message end on the last only |
| `Ndef.FlagsOf` | arduino-libraries/NDEF/NdefRecord.cpp:183-209 | The flags of the header byte are the facts it is built from, and its low bits the TNF |
| `Ndef.TnfByteBits` | arduino-libraries/NDEF/NdefRecord.cpp:183-209 | Flags are or-ed in: those that a TNF above 7 already carries stay set |
| `Bytes.HasBitIsBit` | arduino-libraries/NDEF/NdefMessage.cpp:27-31 | A mask with one bit selects the bit at its place |
| `Bytes.Word32IsOr` | arduino-libraries/NDEF/NdefMessage.cpp:47-51 | Four bytes shifted into place and or-ed are one big-endian number |
| `Ndef.RecordBytes` | arduino-libraries/NDEF/NdefRecord.cpp:139-181 | A record byte by byte, short and long form |
| `Ndef.LongMessageKeepsFour` | arduino-libraries/NDEF/NdefMessage.cpp:149-165 | Of a longer message of codable records exactly the first four are decoded |
| `Ndef.DecodeMessage` | arduino-libraries/NDEF/NdefMessage.cpp:8-80 | The decoding loop computes the specified result and holds one to four records |
| `Ndef.WriteRecord` | arduino-libraries/NDEF/NdefRecord.cpp:139-181 | Writes exactly the encoded record through one moving pointer |
| `Ndef.NdefMessage.Encode` | arduino-libraries/NDEF/NdefMessage.cpp:135-147 | Writes the encoded message and nothing behind it |
| `Ndef.NdefMessage.GetEncodedSize` | arduino-libraries/NDEF/NdefMessage.cpp:124-133 | Returns the length of the encoding |
| `Ndef.NdefMessage.AddRecord` | arduino-libraries/NDEF/NdefMessage.cpp:149-165 | Appends up to four records and refuses the fifth without change |
| `Resp.StreamStaysInStep` | arduino-libraries/Redis_for_Arduino/RedisInternal.cpp:136-166 | For every list of values printed back to back, as many parses return the same list if and only if all values are faithful; then at most one CRLF is left and the next parse reports the disconnection |
| `Server.ServerStreamStaysInStep` | arduino-libraries/Redis_for_Arduino/RedisInternal.cpp:136-166 | For every list of replies as a server writes them, errors and null strings among them and nested in arrays, as many parses give their meanings in order; then at most one CRLF is left and the next parse reports the disconnection |
| `Server.ReplyIsUnderstood` | arduino-libraries/Redis_for_Arduino/RedisInternal.cpp:136-166 | Behind any line breaks and before any continuation: an error line is an internal error with its text, $-1 the null string, every other reply the value of its kind |
| `Server.UnknownTypeIsReported` | arduino-libraries/Redis_for_Arduino/RedisInternal.cpp:165 | Any other type byte is reported by its number and only that byte is taken |
| `Server.NegativeArrayIsEmpty` | arduino-libraries/Redis_for_Arduino/RedisInternal.cpp:57-61 | An array with a negative count is empty |
| `Resp.ItemsRoundTrip` | arduino-libraries/Redis_for_Arduino/RedisInternal.cpp:57-81 | The same behind any line breaks and before any continuation, with the exact unread rest |
| `Resp.ValueRoundTrip` | arduino-libraries/Redis_for_Arduino/RedisInternal.cpp:136-166 | One value, nested arrays included: it comes back if and only if it is faithful (no CR in simple strings and integers, no NUL in bulk strings), leaving exactly its pending CRLF |
| `Resp.ArrayRoundTrip` | arduino-libraries/Redis_for_Arduino/RedisInternal.cpp:57-81 | The array case: items are parsed in order from the printed items |
| `Resp.BulkRoundTrip` | arduino-libraries/Redis_for_Arduino/RedisInternal.cpp:22-55 | A bulk string, with CR and LF allowed inside, comes back if and only if it holds no NUL, and its CRLF stays unread |
| `Resp.NullIsNotFaithful` | arduino-libraries/Redis_for_Arduino/RedisInternal.cpp:47-55 | A null bulk string is printed as an empty one and read back as that |
| `Resp.LineRoundTrip` | arduino-libraries/Redis_for_Arduino/RedisInternal.cpp:5-20 | A line survives if and only if it holds no CR |
| `Resp.DecimalRoundTrip` | arduino-libraries/Redis_for_Arduino/RedisInternal.cpp:22-55 | Lengths and counts survive printing and reading |
| `Resp.ToIntReads` | arduino-libraries/Redis_for_Arduino/RedisInternal.cpp:24 | Blanks and a sign before a number and anything behind it are read as the C library reads them |
| `Resp.ToIntOfNothing` | arduino-libraries/Redis_for_Arduino/RedisInternal.cpp:24 | Without digits the number is 0 |
| `Resp.RemoveCrlfSplits` | arduino-libraries/Redis_for_Arduino/RedisInternal.cpp:16 | Each CRLF is cut out of a simple string, from the left |
| `Resp.CommandRoundTrip` | arduino-libraries/Redis_for_Arduino/RedisInternal.h:157-169 | Every command without NUL bytes reads back as the same words |
| `Resp.ReadValue` | arduino-libraries/Redis_for_Arduino/RedisInternal.cpp:136-166 | The parser over the client stream computes the specified value and leaves exactly the specified rest; it terminates on every stream |
| `Resp.ReadBulk` | arduino-libraries/Redis_for_Arduino/RedisInternal.cpp:22-45 | Length line, then that many bytes, the CRLF left unread |
| `Resp.ReadArray` | arduino-libraries/Redis_for_Arduino/RedisInternal.cpp:57-61 | Count line, then that many parses |
| `Resp.PrintValue` | arduino-libraries/Redis_for_Arduino/RedisInternal.cpp:11-81 | The printers return the specified bytes, and leave simple strings and integers without the CRLFs they removed |
| `Resp.PrintsAgainIff` | arduino-libraries/Redis_for_Arduino/RedisInternal.cpp:11-20 | Printing a value a second time gives the same bytes if and only if the first printing left no CRLF behind |
| `Resp.PrintsDifferentlyTwice` | arduino-libraries/Redis_for_Arduino/RedisInternal.cpp:11-20 | Counterexample: CR CR LF LF |
| `Frame.ReadIsExact` | door-verifier/MY_PN532_HSU.cpp:97-165 | For every stream: no field is cut short, a payload is returned and its n + 9 bytes are consumed, if and only if the stream begins with the well-formed response frame of that payload for the last command, it fits the buffer and is at most 127 bytes long |
| `Frame.AcceptsResponse` | door-verifier/MY_PN532_HSU.cpp:97-165 | Every such frame is accepted, whether anything follows it or not |
| `Frame.AcceptsOnlyResponses` | door-verifier/MY_PN532_HSU.cpp:97-165 | Every nonnegative result on a line that delivers each byte asked for comes from such a frame |
| `Frame.RejectsOneChangedByte` | door-verifier/MY_PN532_HSU.cpp:97-165 | No accepted frame is still accepted after a change of any one of its bytes, and no field is cut short by the change |
| `Frame.RefusesOtherFrames` | door-verifier/MY_PN532_HSU.cpp:123-150 | Well-formed frames that are not returned: too long for the buffer, from elsewhere or for another command, over 127 bytes; code and bytes consumed for each |
| `Frame.RefusesDamage` | door-verifier/MY_PN532_HSU.cpp:103-163 | A wrong start, length checksum, sum or end: code and bytes consumed for each |
| `Frame.ConsumedBytesDecide` | door-verifier/MY_PN532_HSU.cpp:97-165 | Nothing but the bytes consumed is asked for or matters |
| `Frame.FramesCheckOut` | door-verifier/MY_PN532_HSU.cpp:45-95 | Both checksums of every frame written cancel modulo 256 |
| `Frame.KnownFrame` | door-verifier/MY_PN532_HSU.cpp:59-92 | The frame that asks for the firmware version |
| `Frame.Int8Value` | door-verifier/MY_PN532_HSU.cpp:195 | The signed byte with the same eight bits |
| `Frame.LengthByteIsTrueIff` | door-verifier/MY_PN532_HSU.cpp:57-62 | The length byte is true if and only if the data are at most 254 bytes |
| `Frame.Accumulate` | door-verifier/MY_PN532_HSU.cpp:66-82 | The running 8-bit sum is the whole sum modulo 256 |
| `Frame.Hsu.ReadResponse` | door-verifier/MY_PN532_HSU.cpp:97-165 | Status, bytes consumed and buffer contents are those of the specified reader |
| `Frame.Hsu.Receive` | door-verifier/MY_PN532_HSU.cpp:195-232 | Fills the buffer with the bytes that came; the count is returned through a signed byte |
| `Frame.Hsu.SendFrame` | door-verifier/MY_PN532_HSU.cpp:57-92 | Sends exactly the specified frame |
| `Frame.Hsu.WriteCommand` | door-verifier/MY_PN532_HSU.cpp:45-95 | Remembers the command, drops stale input, sends the frame and judges the acknowledgement, cut short or not |
| `Frame.Hsu.Exchange` | arduino-libraries/PN532/PN532.cpp:995-1002 | A command answered by an acknowledgement and a response frame gives exactly the payload and leaves the line empty |
| `Frame.Hsu.ReadAck` | door-verifier/MY_PN532_HSU.cpp:167-193 | The verdict for every stream: missing bytes are those the buffer happened to hold |
| `Frame.AckIsAccepted` | door-verifier/MY_PN532_HSU.cpp:167-193 | With six bytes there, exactly the acknowledgement frame is accepted |
| `Link.ShiftUp` | arduino-libraries/PN532/PN532.cpp:1025-1030 | Shifting up from the last byte is right even when source and target are one buffer |
| `Link.ShiftDown` | arduino-libraries/PN532/PN532.cpp:1012-1015 | Shifting down from the first byte moves the bytes and keeps those behind |
| `Link.Pn532.TgGetData` | arduino-libraries/PN532/PN532.cpp:993-1019 | Result and buffer for every reply: the status byte is shifted out |
| `Link.Pn532.TgSetData` | arduino-libraries/PN532/PN532.cpp:1021-1053 | The command written is exactly 8E, header and body, even when the header lies in the packet buffer itself |
| `Llcp.HeaderRoundTrip` | arduino-libraries/PN532/llcp.cpp:17-30 | The two header bytes carry exactly both access points and the type |
| `Dialogue.KnownHeaders` | arduino-libraries/PN532/llcp.cpp:17-30 | The headers of all PDU types used, as they go over the air |
| `Dialogue.KnownTypes` | arduino-libraries/PN532/llcp.cpp:4-15 | The type numbers of section 4.3 of LLCP 1.1 |
| `Dialogue.AcceptedIff` | arduino-libraries/PN532/PN532.cpp:1044-1052 | A write is accepted if and only if the chip answers with a zero status byte and no more than fits |
| `Dialogue.StatusOf` | arduino-libraries/PN532/PN532.cpp:993-1019 | What a read returns for every reply |
| `Dialogue.BufferOf` | arduino-libraries/PN532/PN532.cpp:993-1019 | What a read that fails leaves in the buffer |
| `Llcp.TurnsJoin` | arduino-libraries/PN532/llcp.cpp:37-85 | Turns taken by one call are continued by the next |
| `Llcp.Connection.WaitForConnection` | arduino-libraries/PN532/llcp.cpp:37-85 | Result, replies used, access points and the complete trace of link operations, for any number of SYMM before the CONNECT |
| `Dialogue.SendFails` | arduino-libraries/PN532/llcp.cpp:250-318 | How far a sending that fails gets, in every other case |
| `Llcp.Connection.Connect` | arduino-libraries/PN532/llcp.cpp:133-194 | The same for connecting; the operations take turns |
| `Dialogue.ConnectSucceedsIff` | arduino-libraries/PN532/llcp.cpp:133-194 | Connecting succeeds if and only if a SYMM comes, the CONNECT is accepted and a CC follows after any number of answered SYMM |
| `Dialogue.ConnectFails` | arduino-libraries/PN532/llcp.cpp:133-194 | The code of every other end: -1, -2 or -3 |
| `Llcp.Connection.Disconnect` | arduino-libraries/PN532/llcp.cpp:196-248 | The same for disconnecting, with the final wait that stops on CC and answers DM |
| `Llcp.Connection.Await` | arduino-libraries/PN532/llcp.cpp:41-66 | The waiting loop: where it ends, what arrived, and a SYMM written after every read but the last |
| `Dialogue.WaitFails` | arduino-libraries/PN532/llcp.cpp:41-66 | How a wait ends after any number of answered SYMM that does not end with the wanted PDU |
| `Llcp.Connection.Write` | arduino-libraries/PN532/llcp.cpp:250-318 | Result, sequence number and trace in every case: the information PDU is the two-byte header, the sequence byte, the upper header and the body, shifted into place in one buffer |
| `Dialogue.SendSucceedsIff` | arduino-libraries/PN532/llcp.cpp:250-318 | Sending succeeds if and only if the peer sends a SYMM where it is to speak first, the PDU is accepted, a receipt follows after any number of answered SYMM, and the closing SYMM is accepted |
| `Dialogue.SendSucceeds` | arduino-libraries/PN532/llcp.cpp:250-318 | It then takes 2m + 3 turns, or 2m + 4 where the peer speaks first |
| `Llcp.Connection.Read` | arduino-libraries/PN532/llcp.cpp:320-373 | Result, buffer, acknowledgement sent and turns taken, the unsigned status of a failed read included |
| `Llcp.ReadPduTurns` | arduino-libraries/PN532/llcp.cpp:320-373 | A link read ends on its own turn exactly when it fails with -1 or -3; every other end follows a write |
| `Dialogue.ReadFails` | arduino-libraries/PN532/llcp.cpp:325-366 | The code and buffer of every link read that ends at once without a PDU |
| `Snep.Session.Write` | arduino-libraries/PN532/snep.cpp:5-55 | In every run of a put the link operations strictly alternate, beginning with a read; the put command goes out right after connecting, a successful put ends with a disconnection, and the result is the specified one |
| `Dialogue.PutEnds` | arduino-libraries/PN532/snep.cpp:5-55 | A put that is connected, received and answered, SYMM interleaved anywhere, returns 1 if and only if the answer has at least six bytes and begins with the version and the success code, and -4 otherwise |
| `Dialogue.PutUnconnected` | arduino-libraries/PN532/snep.cpp:13-17 | A put that cannot connect returns -2 |
| `Dialogue.PutUnreceived` | arduino-libraries/PN532/snep.cpp:26-29 | A put that is connected but not received returns -3 |
| `Dialogue.PutUnanswered` | arduino-libraries/PN532/snep.cpp:31-35 | A put that is received but whose answer cannot be read returns -4 |
| `Dialogue.KnownPut` | arduino-libraries/PN532/snep.cpp:20-26 | A put and the answer that accepts it, as they go over the air |
| `Snep.Session.Read` | arduino-libraries/PN532/snep.cpp:57-133 | Result and buffer of every run, and the answer sent to an accepted put; the link operations of a run that ends strictly alternate if and only if it is not the case that the link read failed with -1 or -3 and the bytes it left pass the checks on a put; a run that leaves the buffer before its answer would break the turns in exactly that case |
| `Snep.Session.Acknowledge` | arduino-libraries/PN532/snep.cpp:123-130 | The answer to an accepted put: its bytes, the operations of its sending, and when they are in turn |
| `Dialogue.RealignedIff` | arduino-libraries/PN532/snep.cpp:79-87 | A message is moved up by four bytes if and only if the version is missing at its start and present there |
| `Dialogue.ReadPutFails` | arduino-libraries/PN532/snep.cpp:65-117 | The codes of a reader without a connection, with too short a message, or with bytes that are no put |
| `Snep.JudgePassesPuts` | arduino-libraries/PN532/snep.cpp:78-117 | A received message is not refused if and only if, once realigned, it has the version, the request code and a length covered by the status |
| `Snep.StaleBufferCanBeAccepted` | arduino-libraries/PN532/snep.cpp:71-76 | Counterexample: an empty link read over a buffer that still holds an old put is accepted, because the failure is stored unsigned |
| `Snep.StaleBufferCanBeOverrun` | arduino-libraries/PN532/snep.cpp:118-121 | Counterexample: over an old put longer than the buffer its removal leaves the buffer |
| `Snep.CommandIsPdu` | arduino-libraries/PN532/snep.cpp:20-26 | The command is 8E followed by the PDU: three bytes of link header, six of put header, the payload |
| `Snep.PutFrameLength` | arduino-libraries/PN532/snep.cpp:20-26 | The frame that carries a put has a true length byte if and only if the payload is at most 244 bytes |
| `Snep.PutRoundTrip` | arduino-libraries/PN532/snep.cpp:57-133 | A put PDU delivered after any number of SYMM, to any buffer it fits, comes out of the three in-place shifts as the original payload and length |
| `Snep.WaitSkipsSymm` | arduino-libraries/PN532/llcp.cpp:41-66 | Any number of SYMM before the wanted PDU only adds turns |
| `Snep.HearSkipsSymm` | arduino-libraries/PN532/llcp.cpp:326-351 | The same for the receiving loop |
| `Snep.Session.Take` | arduino-libraries/PN532/snep.cpp:78-132 | The checks on a received message, its realignment and the removal of its header |
| `MifareClassic.WriteThenRead` | arduino-libraries/NDEF/MifareClassic.cpp:369-450 | Every message that fits the card is read back whole, through the short or the long TLV |
| `MifareClassic.RecordsSurviveTheCard` | arduino-libraries/NDEF/MifareClassic.cpp:369-450 | Codable records written to the card are read back and decoded as the same records |
| `MifareClassic.LoopFollowsChunks` | arduino-libraries/NDEF/MifareClassic.cpp:405-447 | Skipping trailers block by block walks exactly along the closed form of the block number, and says where sectors begin |
| `MifareClassic.ChunkPlacement` | arduino-libraries/PN532/PN532.cpp:483-504 | No chunk falls on a trailer or into sector 0; exactly the first 213 are on the card |
| `MifareClassic.SectorEdges` | arduino-libraries/PN532/PN532.cpp:483-504 | First and trailer blocks are exactly the edges of the 32 small and 8 large sectors |
| `MifareClassic.ChunkBlockIsInjective` | arduino-libraries/NDEF/MifareClassic.cpp:400-446 | Different chunks have different blocks, in increasing order |
| `MifareClassic.TlvRoundTrip` | arduino-libraries/NDEF/MifareClassic.cpp:174-200 | The length written in the TLV is the length read, up to 65535 |
| `MifareClassic.TlvLayout` | arduino-libraries/NDEF/MifareClassic.cpp:369-398 | The TLV byte by byte: type, length in either form, value, terminator, zeros |
| `MifareClassic.TlvBehindNulls` | arduino-libraries/NDEF/MifareClassic.cpp:174-200 | Length and start behind any number of null TLVs that leaves type and length in the first block |
| `MifareClassic.ReadBehindNulls` | arduino-libraries/NDEF/MifareClassic.cpp:19-112 | A message behind null TLVs is read whole if and only if it ends within the buffer, which is sized without them |
| `MifareClassic.GatherStored` | arduino-libraries/NDEF/MifareClassic.cpp:62-107 | The chunks read back are the chunks stored |
| `MifareClassic.SafeIff` | arduino-libraries/NDEF/MifareClassic.cpp:400-449 | The commands of a write touch no trailer and no block of sector 0, and only the sector authenticated last, if and only if the message has at most 213 chunks |
| `MifareClassic.AccessesReachBlockZero` | arduino-libraries/NDEF/MifareClassic.cpp:420-436 | One chunk more and the block number wraps to block 0 |
| `MifareClassic.Reader.Write` | arduino-libraries/NDEF/MifareClassic.cpp:369-450 | Every run, failing ones included: the card holds a prefix of the chunks, the commands issued are a prefix of the complete ones and safe, and success means all of them |
| `MifareClassic.Reader.Read` | arduino-libraries/NDEF/MifareClassic.cpp:19-112 | Every run: nothing unless the first block is answered, then the message cut out of the blocks received, those not answered keeping what the buffer held |
| `MifareClassic.AnsweredReadIsReadBack` | arduino-libraries/NDEF/MifareClassic.cpp:62-111 | With an answer for each sector authenticated and each block, that is exactly what is stored on the card |
| `MifareClassic.Reader.ReadChunks` | arduino-libraries/NDEF/MifareClassic.cpp:62-108 | The reading loop: each block that is answered, in order, and the old contents of the buffer for the others |
| `MifareClassic.Reader.FillBuffer` | arduino-libraries/NDEF/MifareClassic.cpp:369-398 | Header, message, terminator and padding |
| `MifareClassic.GetNdefStartIndex` | arduino-libraries/NDEF/MifareClassic.cpp:141-164 | The first byte that is not a null TLV, -1 for none and -2 for a foreign one |
| `Utf8.DecodersAgree` | arduino-libraries/TFT_eSPI/TFT_eSPI.cpp:4299-4372 | Both decoders return every text of nonzero code points up to FFFF from its encoding |
| `Utf8.StreamDecodes` | arduino-libraries/TFT_eSPI/TFT_eSPI.cpp:4299-4341 | The byte-at-a-time decoder, its zero results dropped, from any character boundary |
| `Utf8.BoundariesAreAtRest` | arduino-libraries/TFT_eSPI/TFT_eSPI.cpp:4299-4341 | Its state is 0 at each character boundary of a text |
| `Utf8.BufferDecodes` | arduino-libraries/TFT_eSPI/TFT_eSPI.cpp:4348-4372 | The line-buffer decoder from any index |
| `Utf8.FeedKeepsValid` | arduino-libraries/TFT_eSPI/TFT_eSPI.cpp:4299-4341 | On every byte sequence the bits still awaited are zero |
| `Utf8.OrSecond` | arduino-libraries/TFT_eSPI/TFT_eSPI.cpp:4325-4329 | The bits of the second byte of three are or-ed into zeros, that is, added |
| `Utf8.OrLast` | arduino-libraries/TFT_eSPI/TFT_eSPI.cpp:4330-4334 | The same for the last byte |
| `Utf8.TextDecoder.DecodeByte` | arduino-libraries/TFT_eSPI/TFT_eSPI.cpp:4299-4341 | One byte: result and new state |
| `Utf8.LeadBytes` | arduino-libraries/TFT_eSPI/TFT_eSPI.cpp:4310-4324 | What the first byte of two or three gives, to both decoders |
| `Utf8.NextBytes` | arduino-libraries/TFT_eSPI/TFT_eSPI.cpp:4303-4336 | Within a character every byte from 80 on counts as its next one, and an ASCII byte ends it |
| `Utf8.StrayBytes` | arduino-libraries/TFT_eSPI/TFT_eSPI.cpp:4338-4340 | Bytes that begin no supported character are returned as they are, by both decoders |
| `Utf8.CutShort` | arduino-libraries/TFT_eSPI/TFT_eSPI.cpp:4358-4371 | So is the first byte of a character that the line cuts short |
| `Utf8.DecodeCode` | arduino-libraries/TFT_eSPI/TFT_eSPI.cpp:4348-4372 | One code point from the buffer, combined by "or", and the index behind it |
| `Utf8.TextDecoder.DecodeBytes` | arduino-libraries/TFT_eSPI/TFT_eSPI.cpp:4472-4478 | Bytes written one after another: the nonzero results in order, and the state left |
| `Utf8.DecodeLine` | arduino-libraries/TFT_eSPI/TFT_eSPI.cpp:4348-4372 | The loop over a line buffer terminates and returns the specified code points |
| `Plotting.FastIsPixelByPixel` | arduino-libraries/TFT_eSPI/Extensions/Sprite.cpp:1635-1688 | Whatever paints the visible part of a rectangle leaves the very array that drawing its points one by one leaves, neighbouring half bytes included |
| `Plotting.PlotAllPaints` | arduino-libraries/TFT_eSPI/Extensions/Sprite.cpp:1635-1688 | Points drawn one by one, in any order and with repetitions, paint exactly those that are visible |
| `Plotting.ViewportShows` | arduino-libraries/TFT_eSPI/TFT_eSPI.cpp:180-238 | A viewport shows exactly the pixels of the screen inside the requested rectangle |
| `Plotting.DatumIsCorner` | arduino-libraries/TFT_eSPI/TFT_eSPI.cpp:182-236 | Points are counted from the requested corner of the viewport if it has a datum, and from the corner of the screen otherwise |
| `Plotting.ReadIsStored16` | arduino-libraries/TFT_eSPI/Extensions/Sprite.cpp:975-979 | A 16-bit colour is read back as drawn |
| `Plotting.ReadIsStored8` | arduino-libraries/TFT_eSPI/Extensions/Sprite.cpp:981-992 | An 8-bit pixel read and drawn again is stored as the same byte |
| `Plotting.StoredKeepsHighBits` | arduino-libraries/TFT_eSPI/Extensions/Sprite.cpp:1650-1653 | Every colour drawn with 8 bits keeps its three high red and green bits and its two high blue bits |
| `Plotting.ReadScale` | arduino-libraries/TFT_eSPI/Extensions/Sprite.cpp:981-992 | Red, green and blue of a pixel read back are spread over their ranges |
| `Plotting.StoredOrder` | arduino-libraries/TFT_eSPI/Extensions/Sprite.cpp:1645-1656 | With 16 bits the high byte is stored first; with 4 bits the palette index is kept |
| `Raster.PairInByte` | arduino-libraries/TFT_eSPI/Extensions/Sprite.cpp:1654-1664 | With 4 bits an even column is the high half of its byte and the next one the low half |
| `Raster.PixelInArray` | arduino-libraries/TFT_eSPI/Extensions/Sprite.cpp:1645-1653 | With 8 and 16 bits pixels lie row after row |
| `Raster.PaintedIsUnique` | arduino-libraries/TFT_eSPI/Extensions/Sprite.cpp:1635-1688 | Two images painted alike are the same array |
| `Sprite.TftSprite.constructor` | arduino-libraries/TFT_eSPI/Extensions/Sprite.cpp:51-217 | Allocation sizes, even row length for 4 bits, one spare element, the whole sprite as viewport |
| `Sprite.TftSprite.SetViewport` | arduino-libraries/TFT_eSPI/TFT_eSPI.cpp:180-238 | The viewport becomes the clipped rectangle |
| `Sprite.TftSprite.DrawPixel` | arduino-libraries/TFT_eSPI/Extensions/Sprite.cpp:1635-1665 | Paints the one pixel if it is visible, and nothing else |
| `Sprite.TftSprite.FillRect` | arduino-libraries/TFT_eSPI/Extensions/Sprite.cpp:1877-1982 | 4, 8 and 16 bits, every rectangle, viewport and parity: paints exactly the visible part |
| `Sprite.TftSprite.Fill16` | arduino-libraries/TFT_eSPI/Extensions/Sprite.cpp:1897-1909 | First row written, the others copied from it |
| `Sprite.TftSprite.Fill4Left` | arduino-libraries/TFT_eSPI/Extensions/Sprite.cpp:1946-1956 | The middle is set from the top down while the left column is drawn from the bottom up |
| `Sprite.TftSprite.Fill4Right` | arduino-libraries/TFT_eSPI/Extensions/Sprite.cpp:1932-1945 | The same with the right column |
| `Sprite.TftSprite.Fill4Both` | arduino-libraries/TFT_eSPI/Extensions/Sprite.cpp:1957-1968 | The same with both columns |
| `Sprite.TftSprite.DrawFastHLine` | arduino-libraries/TFT_eSPI/Extensions/Sprite.cpp:1814-1870 | Paints exactly the visible part of a horizontal line |
| `Sprite.TftSprite.DrawFastVLine` | arduino-libraries/TFT_eSPI/Extensions/Sprite.cpp:1753-1807 | Paints exactly the visible part of a vertical line |
| `Sprite.TftSprite.DrawLine` | arduino-libraries/TFT_eSPI/Extensions/Sprite.cpp:1695-1746 | For all end points, the line drawn in runs leaves the very array that its pixels drawn one by one leave |
| `Line.NearestPixel` | arduino-libraries/TFT_eSPI/Extensions/Sprite.cpp:1711-1745 | At step k the offset s satisfies 2 abs(k dy - s dx) <= dx, and of two equally near pixels it is the earlier |
| `Line.EndPoints` | arduino-libraries/TFT_eSPI/Extensions/Sprite.cpp:1701-1716 | A line has one pixel for each step of the longer axis and begins and ends at the given points |
| `Line.StepsAreSmall` | arduino-libraries/TFT_eSPI/Extensions/Sprite.cpp:1719-1742 | Along the other axis each step is zero or one pixel |
| `Line.NextMinor` | arduino-libraries/TFT_eSPI/Extensions/Sprite.cpp:1719-1742 | The error term stays in range and its sign tells when to step |
| `Line.LineIsPlotted` | arduino-libraries/TFT_eSPI/Extensions/Sprite.cpp:1719-1744 | Runs and single pixels give the same array |
| `Window.AdvanceFollows` | arduino-libraries/TFT_eSPI/Extensions/Sprite.cpp:1380-1389 | After k writes the pointer is at column k mod W and row (k div W) mod H of the window |
| `Window.NthHits` | arduino-libraries/TFT_eSPI/Extensions/Sprite.cpp:1380-1389 | The pointer is at a place exactly at the writes congruent to its index modulo W * H |
| `Window.StoresAreInsideIff` | arduino-libraries/TFT_eSPI/Extensions/Sprite.cpp:1258-1288 | Every store through every window falls inside the allocation if and only if the last pixel of the screen that windows are clipped to has a place in it |
| `Window.WideViewportLeavesTheArray` | arduino-libraries/TFT_eSPI/TFT_eSPI.cpp:180-238 | Counterexample: a viewport two pixels wider than a 10 by 10 sprite, whose largest window stores behind the allocation |
| `Window.WindowsAreInsideIff` | arduino-libraries/TFT_eSPI/Extensions/Sprite.cpp:1258-1288 | Windows keep to the pixels of the sprite and its spare element for all arguments if and only if the screen they are clipped to is no larger than the sprite |
| `Window.WideLowScreenStaysInside` | arduino-libraries/TFT_eSPI/Extensions/Sprite.cpp:1258-1288 | The two conditions differ: on a wider but lower screen windows run into the next row, yet every store is inside |
| `Window.WindowCovers` | arduino-libraries/TFT_eSPI/Extensions/Sprite.cpp:1258-1288 | A visible window covers exactly the part of the requested rectangle on the screen |
| `Window.StreamShows` | arduino-libraries/TFT_eSPI/Extensions/Sprite.cpp:1359-1390 | A place in memory holds the last colour written while the pointer was there |
| `Window.StreamKeeps` | arduino-libraries/TFT_eSPI/Extensions/Sprite.cpp:1359-1390 | A place the pointer does not come to keeps its value |
| `Window.StreamPixel` | arduino-libraries/TFT_eSPI/Extensions/Sprite.cpp:1359-1390 | What each pixel of the sprite holds after colours that do not go round the window |
| `Window.FirstRound` | arduino-libraries/TFT_eSPI/Extensions/Sprite.cpp:1359-1390 | Colours that do not overrun the window lie in it row by row, and nothing else changes |
| `Window.SpareStream` | arduino-libraries/TFT_eSPI/Extensions/Sprite.cpp:1266-1272 | No pixel is changed through a window that lies off the screen |
| `Window.BlockPaints` | arduino-libraries/TFT_eSPI/Extensions/Sprite.cpp:1337-1352 | A block of one colour paints its stretch of the window |
| `Sprite.TftSprite.SetWindow` | arduino-libraries/TFT_eSPI/Extensions/Sprite.cpp:1258-1288 | Sets the specified window with the pointer at its start; every store is then inside if the last pixel of the screen is |
| `Sprite.TftSprite.WriteColor` | arduino-libraries/TFT_eSPI/Extensions/Sprite.cpp:1359-1390 | Stores at the pointer, inside the allocation, and advances it |
| `Sprite.TftSprite.PushColor` | arduino-libraries/TFT_eSPI/Extensions/Sprite.cpp:1337-1352 | Streams the colour and leaves the pointer at its closed form |
| `Sprite.TftSprite.SetScrollRect` | arduino-libraries/TFT_eSPI/Extensions/Sprite.cpp:1398-1416 | The rectangle becomes its part on the sprite, or stays if there is none |
| `Sprite.TftSprite.ScrollBy` | arduino-libraries/TFT_eSPI/Extensions/Sprite.cpp:1423-1514 | 4, 8 and 16 bits, every viewport, every sign and size of both distances: which pixels are filled, which are moved and from where, and that all others are kept |
| `Scroll.DefaultViewportScrolls` | arduino-libraries/TFT_eSPI/Extensions/Sprite.cpp:1423-1514 | With 8 and 16 bits and the default viewport, each pixel of the rectangle equals the old pixel at that distance if it lies in the rectangle and the gap colour otherwise, and everything outside is unchanged |
| `Scroll.FilledGapScrolls` | arduino-libraries/TFT_eSPI/Extensions/Sprite.cpp:1509-1513 | With any viewport the same holds if the fills cover exactly the gap |
| `Scroll.ScrollFillsGap` | arduino-libraries/TFT_eSPI/Extensions/Sprite.cpp:1509-1513 | And only if, as every plain image in another colour shows |
| `Scroll.FillsAreGapIff` | arduino-libraries/TFT_eSPI/Extensions/Sprite.cpp:1509-1513 | The fills cover exactly the gap if and only if there is none, or the viewport counts from the corner of the sprite and shows all of the gap |
| `Raster.PaintedKeepsNibbles` | arduino-libraries/TFT_eSPI/Extensions/Sprite.cpp:1652-1661 | With 4 bits every pixel stays half a byte, whatever is painted |
| `Scroll.OutcomeKeepsNibbles` | arduino-libraries/TFT_eSPI/Extensions/Sprite.cpp:1478-1492 | And whatever is scrolled |
| `Scroll.SourceIs` | arduino-libraries/TFT_eSPI/Extensions/Sprite.cpp:1478-1492 | What is moved is the pixel itself; with 4 bits, outside the viewport, the low half of 255 |
| `Scroll.NibblesScroll` | arduino-libraries/TFT_eSPI/Extensions/Sprite.cpp:1478-1492 | With 4 bits, counted from the corner of the viewport, the same scroll when moving left or only up and down |
| `Scroll.NibblesMissAColumn` | arduino-libraries/TFT_eSPI/Extensions/Sprite.cpp:1478-1492 | With 4 bits, moving right, it is a scroll if and only if the first column moved to and the column behind the rectangle already look right |
| `Scroll.NibblesCanBeWrong` | arduino-libraries/TFT_eSPI/Extensions/Sprite.cpp:1478-1492 | Counterexample: four pixels moved right by one |
| `Sprite.TftSprite.MovePixels` | arduino-libraries/TFT_eSPI/Extensions/Sprite.cpp:1478-1492 | Pixels read and drawn one by one through the viewport, in the right order, shift the whole area |
| `Sprite.TftSprite.ReadPixelValue` | arduino-libraries/TFT_eSPI/Extensions/Sprite.cpp:903-932 | The value of a visible pixel, and 255 outside the viewport |
| `Scroll.ShiftPixel` | arduino-libraries/TFT_eSPI/Extensions/Sprite.cpp:1478-1492 | One more pixel, from a place not yet overwritten, extends the shifted area |
| `Sprite.TftSprite.MoveRows` | arduino-libraries/TFT_eSPI/Extensions/Sprite.cpp:1459-1477 | The overlapping moves, row by row in the right direction, shift the whole area |
| `Scroll.ShiftRow` | arduino-libraries/TFT_eSPI/Extensions/Sprite.cpp:1459-1477 | One more row, from a row not yet overwritten, extends the shifted area |
| `Scroll.ScrollCloses` | arduino-libraries/TFT_eSPI/Extensions/Sprite.cpp:1509-1513 | Moving and filling both gaps gives the outcome |
| `Glyph.Display.DrawChar` | arduino-libraries/TFT_eSPI/TFT_eSPI.cpp:4607-4888 | Whichever way is taken, for every run stream that adds up to the character, the visible part of its picture is painted and nothing else changes; the width is returned |
| `Glyph.Display.DrawTransparent` | arduino-libraries/TFT_eSPI/TFT_eSPI.cpp:4766-4813 | Transparent unclipped text: one window for each pixel |
| `Glyph.Display.DrawBlocks` | arduino-libraries/TFT_eSPI/TFT_eSPI.cpp:4814-4834 | Opaque unclipped text of size one: runs streamed into one window |
| `Glyph.Display.DrawRows` | arduino-libraries/TFT_eSPI/TFT_eSPI.cpp:4835-4869 | All other text: one rectangle for each row a run touches |
| `Glyph.Display.FillRun` | arduino-libraries/TFT_eSPI/TFT_eSPI.cpp:4848-4867 | A run split at the ends of rows |
| `Glyph.Display.FillRect` | arduino-libraries/TFT_eSPI/TFT_eSPI.cpp:4055-4089 | The display paints exactly the visible part of a rectangle through a window |
| `Glyph.ShownIsUnique` | arduino-libraries/TFT_eSPI/TFT_eSPI.cpp:4766-4870 | Ways that apply to the same colours leave the same display memory |
| `Glyph.PixelIsSeen` | arduino-libraries/TFT_eSPI/TFT_eSPI.cpp:4766-4870 | Pixel i of the character, at column i mod width and row i div width, is seen on every visible pixel of its square |
| `Glyph.RowOfSquares` | arduino-libraries/TFT_eSPI/TFT_eSPI.cpp:4849-4867 | A rectangle over part of a row is exactly the squares of its pixels |
| `Glyph.NextRun` | arduino-libraries/TFT_eSPI/TFT_eSPI.cpp:4777-4812 | The next byte of the font data stands for that many equal pixels of the character |
| `Glyph.EncodedRunsDecode` | arduino-libraries/TFT_eSPI/TFT_eSPI.cpp:4777-4812 | For every list of runs of text and background, written as a font does, the encoding adds up exactly and decodes as the runs laid end to end |
| `Glyph.EncodedPictureIsSeen` | arduino-libraries/TFT_eSPI/TFT_eSPI.cpp:4766-4870 | A character drawn from encoded runs shows the text colour exactly where the runs have text |
| `Glyph.EveryPictureIsEncoded` | arduino-libraries/TFT_eSPI/TFT_eSPI.cpp:4777-4812 | Every picture has such an encoding |

## Left out

- Frame.Hsu.ReadResponse: requires that no timeout cuts a field short; after one the code goes on with what its buffers happened to hold.
- EmulatedTag.FileHoldsLastWritten: covers runs in which every copy stays inside its buffer; beyond that the code overwrites memory this model does not have.
- Resp.ValueRoundTrip: lengths are read without the overflow of the platform's long integers, and a stream ends by disconnection, not by a timeout.
- Resp.PrintValue: does not print internal errors, whose text depends on when the platform takes a string for true.
- Sprite.TftSprite.constructor: sprites that exist; a sprite that could not be allocated draws nothing, and second frame buffers are not modelled.
- Snep.Session.Read: a run whose header removal leaves the buffer ends there as unknown; memory behind the buffer is not modelled.
- Sprite.TftSprite.DrawLine: 32-bit overflow of coordinates is not modelled.
- Glyph.Display.DrawChar: run streams that add up to the character exactly, as font tables do; the tables themselves and the bitmap font 2 are not modelled.
- Utf8.DecodersAgree: UTF-8 decoding switched on, as it is by default; without it both decoders return bytes.
- 1-bit sprites, scrolling them included: drawing and reading rotate with different dimensions.
- Copying images into sprites and to the display, with or without a transparent colour, and reading palettes.
- Floating-point drawing: smooth lines and circles, rotation of sprites, gradients.
- Waiting for disconnection in the link layer, and target activation.
- Card formatting, URI records written by the chip driver, Mifare Ultralight and FeliCa.
- Ownership and freeing of record and reply memory, replaced by values.
- WiFi, Redis connections, the door's serial line and screens, and the smart contracts.
