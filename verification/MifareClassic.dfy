/**
 NDEF messages on a Mifare Classic card: which blocks a write touches, in what order and under which
 authentication, and that reading brings the message back. The TLV format is that of AN1304,
 section 6.3.
 */
module MifareClassic {
  import opened Bytes
  import opened Options
  import opened Memory
  import Ndef

  // Sizes are written out in the arithmetic below: a block has 16 bytes, a card 256 blocks; the 31
  // small sectors after sector 0 have 93 data blocks, and all sectors after it 213.

  type Block = b: seq<Byte> | |b| == 16 witness seq(16, _ => 0)
  const EMPTY_BLOCK: Block := seq(16, _ => 0)
  type Card = c: seq<Block> | |c| == 256 witness seq<Block>(256, _ => EMPTY_BLOCK)

  predicate IsFirstBlock(b: nat) {
    if b < 128 then b % 4 == 0 else b % 16 == 0
  }

  predicate IsTrailerBlock(b: nat) {
    if b < 128 then (b + 1) % 4 == 0 else (b + 1) % 16 == 0
  }

  function Sector(b: nat): nat {
    if b < 128 then b / 4 else 32 + (b - 128) / 16
  }

  /** A first block begins a sector, and a trailer block is the last one of its sector. */
  lemma SectorEdges(b: nat)
    ensures IsFirstBlock(b) <==> b == 0 || Sector(b) == Sector(b - 1) + 1
    ensures IsTrailerBlock(b) <==> Sector(b + 1) == Sector(b) + 1
    ensures Sector(b + 1) == Sector(b) || Sector(b + 1) == Sector(b) + 1
    ensures Sector(255) == 39
  {
    SectorStep(b);
    if b > 0 {
      SectorStep(b - 1);
    }
  }

  lemma SectorStep(b: nat)
    ensures IsTrailerBlock(b) == IsFirstBlock(b + 1)
    ensures Sector(b + 1) == if IsFirstBlock(b + 1) then Sector(b) + 1 else Sector(b)
  {
    if b < 127 {
      QuarterStep(b);
    } else if b >= 128 {
      SixteenthStep(b - 128);
    }
  }

  lemma QuarterStep(b: nat)
    ensures (b + 1) / 4 == if (b + 1) % 4 == 0 then b / 4 + 1 else b / 4
  {
  }

  lemma SixteenthStep(b: nat)
    ensures (b + 1) / 16 == if (b + 1) % 16 == 0 then b / 16 + 1 else b / 16
    ensures (b + 128) % 16 == b % 16 && (b + 129) % 16 == (b + 1) % 16
  {
  }

  // ----- where the chunks go

  /** The block of chunk `i`, over the four-block sectors and then the sixteen-block ones. */
  function ChunkBlock(i: nat): nat {
    if i < 93 then 4 + i / 3 * 4 + i % 3
    else 128 + (i - 93) / 15 * 16 + (i - 93) % 15
  }

  /** The block number that fits the command byte. */
  function Addressed(i: nat): (b: nat)
    ensures b < 256
  {
    ChunkBlock(i) % 256
  }

  /** One step of the loop: the next block, or the one after it if that is a trailer. */
  function NextBlock(b: nat): nat {
    if IsTrailerBlock(b + 1) then b + 2 else b + 1
  }

  lemma Split3(q: nat, r: nat)
    requires r < 3
    ensures (3 * q + r) / 3 == q && (3 * q + r) % 3 == r
  {
  }

  lemma Split4(q: nat, r: nat)
    requires r < 4
    ensures (4 * q + r) / 4 == q && (4 * q + r) % 4 == r
  {
  }

  lemma Split15(q: nat, r: nat)
    requires r < 15
    ensures (15 * q + r) / 15 == q && (15 * q + r) % 15 == r
  {
  }

  lemma Split16(q: nat, r: nat)
    requires r < 16
    ensures (16 * q + r) / 16 == q && (16 * q + r) % 16 == r
  {
  }

  /** Chunk `r` of the small sector after sector `q`. */
  lemma SmallChunk(q: nat, r: nat)
    requires r < 3 && 3 * q + r < 93
    ensures var b := ChunkBlock(3 * q + r);
            && b == 4 + 4 * q + r < 128 && b % 4 == r && (b + 1) % 4 == r + 1 && Sector(b) == q + 1
  {
    Split3(q, r);
    Split4(q + 1, r);
    Split4(q + 1, r + 1);
  }

  /** Chunk `r` of the large sector 32 + `q`. */
  lemma LargeChunk(q: nat, r: nat)
    requires r < 15
    ensures var b := ChunkBlock(93 + 15 * q + r);
            && b == 128 + 16 * q + r && b % 16 == r && (b + 1) % 16 == r + 1 && Sector(b) == 32 + q
  {
    Split15(q, r);
    Split16(q + 8, r);
    Split16(q + 8, r + 1);
    Split16(q, r);
  }

  /** Skipping trailers one block at a time walks exactly along the closed form. */
  lemma LoopFollowsChunks(i: nat)
    ensures NextBlock(ChunkBlock(i)) == ChunkBlock(i + 1)
    ensures IsFirstBlock(ChunkBlock(i)) <==> (if i < 93 then i % 3 == 0 else (i - 93) % 15 == 0)
  {
    hide ChunkBlock, Sector;
    if i < 93 {
      var q, r := i / 3, i % 3;
      SmallChunk(q, r);
      if r < 2 {
        SmallChunk(q, r + 1);
      } else if q < 30 {
        SmallChunk(q + 1, 0);
      } else {
        LargeChunk(0, 0);
      }
    } else {
      var q, r := (i - 93) / 15, (i - 93) % 15;
      assert i == 93 + 15 * q + r;
      LargeChunk(q, r);
      if r < 14 {
        LargeChunk(q, r + 1);
      } else {
        LargeChunk(q + 1, 0);
      }
    }
  }

  /** No chunk falls on a trailer or into sector 0, and exactly the first 213 are on the card. */
  lemma ChunkPlacement(i: nat)
    ensures !IsTrailerBlock(ChunkBlock(i)) && ChunkBlock(i) >= 4
    ensures ChunkBlock(i) < 256 <==> i < 213
  {
    hide ChunkBlock, Sector;
    if i < 93 {
      SmallChunk(i / 3, i % 3);
    } else {
      LargeChunk((i - 93) / 15, (i - 93) % 15);
    }
  }

  /** Different chunks never share a block. */
  lemma {:induction false} ChunkBlockIsInjective(i: nat, j: nat)
    requires i < j
    ensures ChunkBlock(i) < ChunkBlock(j)
    decreases j
  {
    hide ChunkBlock, IsTrailerBlock;
    LoopFollowsChunks(j - 1);
    if i < j - 1 {
      ChunkBlockIsInjective(i, j - 1);
    }
  }

  // ----- the TLV

  /** The message, its header and terminator, rounded up to whole blocks. */
  function BufferSize(n: nat): (size: nat)
    ensures size % 16 == 0
    ensures (if n < 0xFF then n + 3 else n + 5) <= size < (if n < 0xFF then n + 3 else n + 5) + 16
  {
    var s := if n < 0xFF then n + 3 else n + 5;
    if s % 16 != 0 then (s / 16 + 1) * 16 else s
  }

  function TlvHeader(n: nat): seq<Byte> {
    if n < 0xFF then [0x03, n] else [0x03, 0xFF, (n / 256) % 256, n % 256]
  }

  function TlvBuffer(msg: seq<Byte>): (buffer: seq<Byte>)
    ensures |buffer| == BufferSize(|msg|)
  {
    var used := TlvHeader(|msg|) + msg + [0xFE];
    used + seq(BufferSize(|msg|) - |used|, _ => 0)
  }

  datatype Tlv = Tlv(length: nat, start: nat) | NotNdef | PastBlock

  /** The first byte that is not a null TLV: its index, or -1 for none, or -2 for a foreign TLV. */
  function StartIndex(d: seq<Byte>, i: nat): int
    requires i <= |d|
    decreases |d| - i
  {
    if i == |d| then -1 else if d[i] == 0 then StartIndex(d, i + 1) else if d[i] == 3 then i else -2
  }

  /** The TLV of a first block; reading its length may run past the block. */
  function DecodeTlv(d: Block): Tlv {
    var i := StartIndex(d, 0);
    if i < 0 || i >= 16 then NotNdef
    else if i + 1 >= 16 then PastBlock
    else if d[i + 1] == 0xFF then
      if i + 3 >= 16 then PastBlock else Tlv(Word32(0, 0, d[i + 2], d[i + 3]), i + 4)
    else Tlv(d[i + 1], i + 2)
  }

  /** The length written is the length read, up to the largest the long form holds. */
  lemma TlvRoundTrip(msg: seq<Byte>)
    requires |msg| < 0x10000
    ensures var first := TlvBuffer(msg)[..16];
            |first| == 16 && DecodeTlv(first) == Tlv(|msg|, |TlvHeader(|msg|)|)
  {
    var buffer, h := TlvBuffer(msg), TlvHeader(|msg|);
    TlvBufferStarts(msg);
    var d := buffer[..16];
    hide TlvBuffer, BufferSize, DecodeTlv, TlvHeader;
    HeaderLength(|msg|);
    assert forall j :: 0 <= j < |h| ==> d[j] == h[j];
    DecodeHeader(d, |msg|);
  }

  lemma DecodeHeader(d: Block, n: nat)
    requires n < 0x10000 && |TlvHeader(n)| <= 4
    requires forall j :: 0 <= j < |TlvHeader(n)| ==> d[j] == TlvHeader(n)[j]
    ensures DecodeTlv(d) == Tlv(n, |TlvHeader(n)|)
  {
    var h := TlvHeader(n);
    assert d[0] == h[0] && d[1] == h[1];
    if n >= 0xFF {
      assert d[2] == h[2] && d[3] == h[3];
    }
  }

  /** The length `n` at `i`: one byte, or FF and two. */
  predicate SaysLength(d: seq<Byte>, i: nat, n: nat) {
    if n < 255 then i < |d| && d[i] == n
    else i + 2 < |d| && d[i] == 0xFF && d[i + 1] == n / 256 && d[i + 2] == n % 256
  }

  /** The TLV of AN1304, section 6.3: type 3, the length in one byte or in FF and two, the value, FE, zeros. */
  lemma TlvLayout(msg: seq<Byte>)
    requires |msg| < 0x10000
    ensures var b, h := TlvBuffer(msg), if |msg| < 255 then 2 else 4;
            && |b| >= h + |msg| + 1
            && b[0] == 3 && SaysLength(b, 1, |msg|)
            && b[h..h + |msg|] == msg && b[h + |msg|] == 0xFE
            && forall i :: h + |msg| < i < |b| ==> b[i] == 0
  {
    hide BufferSize;
    var h := TlvHeader(|msg|);
    HeaderLength(|msg|);
    var used := h + msg + [0xFE];
    assert TlvBuffer(msg) == used + seq(BufferSize(|msg|) - |used|, _ => 0);
    assert |msg| / 256 % 256 == |msg| / 256;
  }

  /** The TLV of a first block with `k` null TLVs before it, as long as type and length are in the block. */
  lemma TlvBehindNulls(d: Block, k: nat, n: nat)
    requires n < 0x10000 && k + (if n < 255 then 2 else 4) <= 16
    requires forall j :: 0 <= j < k ==> d[j] == 0
    requires d[k] == 3 && SaysLength(d, k + 1, n)
    ensures DecodeTlv(d) == Tlv(n, k + if n < 255 then 2 else 4)
  {
    StartBehindNulls(d, k, 0);
    if n >= 255 {
      HighAndLow(n);
    }
  }

  lemma HighAndLow(n: nat)
    requires n < 0x10000
    ensures Word32(0, 0, n / 256, n % 256) == n
  {
  }

  lemma {:induction false} StartBehindNulls(d: seq<Byte>, k: nat, i: nat)
    requires i <= k < |d| && d[k] == 3 && forall j :: 0 <= j < k ==> d[j] == 0
    ensures StartIndex(d, i) == k
    decreases k - i
  {
    if i < k {
      StartBehindNulls(d, k, i + 1);
    }
  }

  lemma TlvBufferStarts(msg: seq<Byte>)
    ensures var h := TlvHeader(|msg|);
            |h| <= 4 && |TlvBuffer(msg)| >= 16 && TlvBuffer(msg)[..|h|] == h
    ensures forall j :: 0 <= j < |TlvHeader(|msg|)| ==> TlvBuffer(msg)[j] == TlvHeader(|msg|)[j]
  {
    hide TlvHeader;
    assert 2 <= |TlvHeader(|msg|)| <= 4 by { HeaderLength(|msg|); }
  }

  lemma HeaderLength(n: nat)
    ensures |TlvHeader(n)| == if n < 0xFF then 2 else 4
  {
  }

  // ----- the card after a write, and the message after a read

  function ChunkOf(buffer: seq<Byte>, i: nat): Block
    requires (i + 1) * 16 <= |buffer|
  {
    buffer[i * 16..(i + 1) * 16]
  }

  /** The card with the first `k` chunks of `buffer` stored. */
  function Stored(card: Card, buffer: seq<Byte>, k: nat): Card
    requires k * 16 <= |buffer|
  {
    if k == 0 then card else Stored(card, buffer, k - 1)[Addressed(k - 1) := ChunkOf(buffer, k - 1)]
  }

  /** The first `k` chunks of the card, end to end. */
  function Gathered(card: Card, k: nat): (s: seq<Byte>)
    ensures |s| == k * 16
  {
    if k == 0 then [] else Gathered(card, k - 1) + card[Addressed(k - 1)]
  }

  datatype Contents = Message(bytes: seq<Byte>) | NoNdef | OutOfBounds

  /** What a read of a card that answers every command returns. */
  function ReadBack(card: Card): Contents {
    match DecodeTlv(card[4])
    case NotNdef => NoNdef
    case PastBlock => OutOfBounds
    case Tlv(length, start) =>
      var data := Gathered(card, BufferSize(length) / 16);
      if start + length > |data| then OutOfBounds else Message(data[start..start + length])
  }

  lemma {:induction false} StoredElsewhere(card: Card, buffer: seq<Byte>, k: nat, b: nat)
    requires k * 16 <= |buffer| && b < 256
    requires forall i :: 0 <= i < k ==> Addressed(i) != b
    ensures Stored(card, buffer, k)[b] == card[b]
  {
    if k > 0 {
      StoredElsewhere(card, buffer, k - 1, b);
    }
  }

  lemma AddressesDiffer(i: nat, j: nat)
    requires i < j < 213
    ensures Addressed(i) != Addressed(j)
  {
    hide ChunkBlock, IsTrailerBlock;
    ChunkBlockIsInjective(i, j);
    ChunkPlacement(i);
    ChunkPlacement(j);
  }

  /** Within the capacity of the card every chunk stored stays as stored. */
  lemma {:induction false} StoredChunk(card: Card, buffer: seq<Byte>, k: nat, i: nat)
    requires i < k <= 213 && k * 16 <= |buffer|
    ensures Stored(card, buffer, k)[Addressed(i)] == ChunkOf(buffer, i)
  {
    hide ChunkOf, Addressed;
    if i < k - 1 {
      StoredChunk(card, buffer, k - 1, i);
      AddressesDiffer(i, k - 1);
    }
  }

  lemma {:induction false} GatherStored(card: Card, buffer: seq<Byte>, n: nat, k: nat)
    requires k <= n <= 213 && n * 16 <= |buffer|
    ensures Gathered(Stored(card, buffer, n), k) == buffer[..k * 16]
  {
    hide Stored, Addressed;
    if k > 0 {
      GatherStored(card, buffer, n, k - 1);
      StoredChunk(card, buffer, n, k - 1);
      assert buffer[..(k - 1) * 16] + buffer[(k - 1) * 16..k * 16] == buffer[..k * 16];
    }
  }

  function Chunks(msg: seq<Byte>): nat {
    BufferSize(|msg|) / 16
  }

  /** Every message that fits the card is read back whole, through the short or the long TLV. */
  lemma WriteThenRead(card: Card, msg: seq<Byte>)
    requires Chunks(msg) <= 213
    ensures ReadBack(Stored(card, TlvBuffer(msg), Chunks(msg))) == Message(msg)
  {
    hide Stored, DecodeTlv, Gathered, TlvBuffer;
    var buffer, n, h := TlvBuffer(msg), Chunks(msg), TlvHeader(|msg|);
    assert n * 16 == |buffer|;
    GatherStored(card, buffer, n, n);
    assert buffer[..n * 16] == buffer;
    StoredChunk(card, buffer, n, 0);
    assert Addressed(0) == 4 && ChunkOf(buffer, 0) == buffer[..16];
    TlvRoundTrip(msg);
    MessageInBuffer(msg);
  }

  /**
   A message behind `k` null TLVs: the buffer is sized without them, so it is read whole exactly if it
   ends before the rounding of its own size does; otherwise the reader leaves its buffer.
   */
  lemma ReadBehindNulls(card: Card, buffer: seq<Byte>, c: nat, k: nat, msg: seq<Byte>)
    requires |msg| < 0x10000 && k + (if |msg| < 255 then 2 else 4) <= 16
    requires BufferSize(|msg|) / 16 <= c <= 213 && c * 16 <= |buffer|
    requires forall j :: 0 <= j < k ==> buffer[j] == 0
    requires buffer[k] == 3 && SaysLength(buffer, k + 1, |msg|)
    requires var start := k + if |msg| < 255 then 2 else 4;
             start + |msg| <= |buffer| && buffer[start..start + |msg|] == msg
    ensures ReadBack(Stored(card, buffer, c)) ==
            if k + (if |msg| < 255 then 2 else 4) + |msg| <= BufferSize(|msg|) then Message(msg) else OutOfBounds
  {
    hide Stored, DecodeTlv, Gathered;
    var n := BufferSize(|msg|) / 16;
    assert n * 16 == BufferSize(|msg|) && n >= 1;
    GatherStored(card, buffer, c, n);
    StoredChunk(card, buffer, c, 0);
    StartsAtFour();
    assert Addressed(0) == 4 && ChunkOf(buffer, 0) == buffer[..16];
    TlvBehindNulls(buffer[..16], k, |msg|);
    var start := k + if |msg| < 255 then 2 else 4;
    if start + |msg| <= n * 16 {
      assert buffer[..n * 16][start..start + |msg|] == buffer[start..start + |msg|];
    }
  }

  lemma MessageInBuffer(msg: seq<Byte>)
    ensures var h := |TlvHeader(|msg|)|; h + |msg| <= |TlvBuffer(msg)| && TlvBuffer(msg)[h..h + |msg|] == msg
  {
    hide BufferSize;
  }

  /** Codable records written to the card are read back and decoded as the same records. */
  lemma RecordsSurviveTheCard(card: Card, rs: seq<Ndef.Record>)
    requires 1 <= |rs| <= Ndef.MAX_NDEF_RECORDS && Ndef.AllCodable(rs)
    requires Chunks(Ndef.EncodeMessage(rs)) <= 213
    ensures var msg := Ndef.EncodeMessage(rs);
            var read := ReadBack(Stored(card, TlvBuffer(msg), Chunks(msg)));
            read.Message? && Ndef.Decode(read.bytes, |read.bytes|) == Ndef.Decoded(rs)
  {
    hide ReadBack, Stored, Chunks, TlvBuffer, Ndef.Decode, Ndef.EncodeMessage, Ndef.AllCodable;
    var msg := Ndef.EncodeMessage(rs);
    WriteThenRead(card, msg);
    Ndef.RoundTrip(rs, [], |msg|);
    assert msg + [] == msg;
  }

  // ----- what a write does to the card, command by command

  datatype Access = Auth(block: nat) | Store(block: nat)

  /** The commands for chunk `i`: authentication at the start of a sector, then the block. */
  function AccessesOf(i: nat): seq<Access> {
    (if IsFirstBlock(ChunkBlock(i)) then [Auth(Addressed(i))] else []) + [Store(Addressed(i))]
  }

  /** All commands of a write of `n` chunks. */
  function Accesses(n: nat): seq<Access> {
    if n == 0 then [] else Accesses(n - 1) + AccessesOf(n - 1)
  }

  /** The sector of the latest authentication; the number of sectors stands for none. */
  function LastAuth(log: seq<Access>): nat {
    if log == [] then 40
    else if log[|log| - 1].Auth? then Sector(log[|log| - 1].block)
    else LastAuth(log[..|log| - 1])
  }

  /** Every block stored is a data block outside sector 0, in the sector authenticated last. */
  predicate Safe(log: seq<Access>) {
    forall j :: 0 <= j < |log| && log[j].Store? ==>
      !IsTrailerBlock(log[j].block) && Sector(log[j].block) != 0 && LastAuth(log[..j]) == Sector(log[j].block)
  }

  lemma SafePrefix(log: seq<Access>, n: nat)
    requires Safe(log) && n <= |log|
    ensures Safe(log[..n])
  {
    hide LastAuth, IsTrailerBlock, Sector;
    forall j | 0 <= j < n && log[..n][j].Store?
      ensures !IsTrailerBlock(log[j].block) && Sector(log[j].block) != 0 && LastAuth(log[..n][..j]) == Sector(log[j].block)
    {
      assert log[..n][..j] == log[..j];
    }
  }

  lemma SafeAppend(log: seq<Access>, a: Access)
    requires Safe(log)
    requires a.Store? ==> !IsTrailerBlock(a.block) && Sector(a.block) != 0 && LastAuth(log) == Sector(a.block)
    ensures Safe(log + [a])
    ensures LastAuth(log + [a]) == if a.Auth? then Sector(a.block) else LastAuth(log)
  {
    var all := log + [a];
    assert all[..|log|] == log;
    forall j | 0 <= j < |log|
      ensures all[..j] == log[..j] && all[j] == log[j]
    {
    }
  }

  /** Consecutive chunks share a sector unless the second one begins its own. */
  lemma SameSector(i: nat)
    requires 0 < i && !IsFirstBlock(ChunkBlock(i))
    ensures Sector(ChunkBlock(i)) == Sector(ChunkBlock(i - 1))
  {
    hide ChunkBlock, Sector, IsFirstBlock;
    LoopFollowsChunks(i);
    if i < 93 {
      var q, r := i / 3, i % 3;
      SmallChunk(q, r);
      SmallChunk(q, r - 1);
    } else {
      var q, r := (i - 93) / 15, (i - 93) % 15;
      LargeChunk(q, r);
      LargeChunk(q, r - 1);
    }
  }

  lemma {:induction false} AccessesAreSafe(n: nat)
    requires n <= 213
    ensures Safe(Accesses(n))
    ensures n > 0 ==> LastAuth(Accesses(n)) == Sector(ChunkBlock(n - 1))
  {
    hide Safe, LastAuth, ChunkBlock, Sector, IsTrailerBlock, IsFirstBlock;
    if n == 0 {
      EmptyIsSafe();
    } else {
      AccessesAreSafe(n - 1);
      var log, i := Accesses(n - 1), n - 1;
      ChunkPlacement(i);
      DataSector(ChunkBlock(i));
      assert Addressed(i) == ChunkBlock(i);
      var store := Store(Addressed(i));
      if IsFirstBlock(ChunkBlock(i)) {
        SafeAppend(log, Auth(Addressed(i)));
        SafeAppend(log + [Auth(Addressed(i))], store);
        assert log + [Auth(Addressed(i))] + [store] == Accesses(n);
      } else {
        if i == 0 { FirstChunkIsFirst(); }
        SameSector(i);
        SafeAppend(log, store);
        assert log + [store] == Accesses(n);
      }
    }
  }

  lemma EmptyIsSafe()
    ensures Safe([])
  {
  }

  lemma FirstChunkIsFirst()
    ensures IsFirstBlock(ChunkBlock(0))
  {
  }

  lemma DataSector(b: nat)
    requires b >= 4
    ensures Sector(b) != 0
  {
  }

  /** One chunk too many and the block number wraps to block 0. */
  lemma {:induction false} AccessesReachBlockZero(n: nat)
    requires n > 213
    ensures Store(0) in Accesses(n)
  {
    hide ChunkBlock, IsFirstBlock;
    if n == 213 + 1 {
      assert ChunkBlock(213) == 256 by { LastChunk(); }
      assert Addressed(213) == 0;
    } else {
      AccessesReachBlockZero(n - 1);
    }
  }

  lemma LastChunk()
    ensures ChunkBlock(213) == 256
  {
  }

  /** A write is safe if and only if its chunks fit the card. */
  lemma SafeIff(n: nat)
    ensures Safe(Accesses(n)) <==> n <= 213
  {
    hide Accesses, LastAuth;
    if n <= 213 {
      AccessesAreSafe(n);
    } else {
      AccessesReachBlockZero(n);
      var j :| 0 <= j < |Accesses(n)| && Accesses(n)[j] == Store(0);
    }
  }

  // ----- the operations as the source runs them

  /** Skips null TLVs. */
  method GetNdefStartIndex(d: Block) returns (r: int)
    ensures r == StartIndex(d, 0)
    ensures r >= 0 ==> r < 16 && d[r] == 3 && forall j :: 0 <= j < r ==> d[j] == 0
    ensures r == -1 <==> forall j :: 0 <= j < 16 ==> d[j] == 0
    ensures r >= -2 && (r == -2 ==> exists i :: 0 <= i < 16 && d[i] != 0 && d[i] != 3 && forall j :: 0 <= j < i ==> d[j] == 0)
  {
    for i := 0 to 16
      invariant StartIndex(d, 0) == StartIndex(d, i)
      invariant forall j :: 0 <= j < i ==> d[j] == 0
    {
      if d[i] == 0 {
      } else if d[i] == 3 {
        return i;
      } else {
        return -2;
      }
    }
    r := -1;
  }

  /** How the card takes a command: carried out, carried out with the answer lost, or refused. */
  datatype Outcome = Success | AnswerLost | Refused

  /** The reader with a card in its field. */
  class Reader {
    var card: Card
    var outcomes: seq<Outcome>
    var log: seq<Access>

    method TakeOutcome() returns (o: Outcome)
      modifies `outcomes
      ensures old(outcomes) == [] ==> o == Refused && outcomes == []
      ensures old(outcomes) != [] ==> o == old(outcomes)[0] && outcomes == old(outcomes)[1..]
    {
      if outcomes == [] {
        return Refused;
      }
      o := outcomes[0];
      outcomes := outcomes[1..];
    }

    method AuthenticateBlock(b: nat) returns (ok: bool)
      modifies `outcomes, `log
      ensures log == old(log) + [Auth(b % 256)]
      ensures ok <==> old(outcomes) != [] && old(outcomes)[0] == Success
      ensures outcomes == if old(outcomes) == [] then [] else old(outcomes)[1..]
    {
      log := log + [Auth(b % 256)];
      var o := TakeOutcome();
      ok := o == Success;
    }

    method WriteDataBlock(b: nat, data: Block) returns (ok: bool)
      modifies this
      ensures log == old(log) + [Store(b % 256)]
      ensures ok <==> old(outcomes) != [] && old(outcomes)[0] == Success
      ensures outcomes == if old(outcomes) == [] then [] else old(outcomes)[1..]
      ensures card == old(card) || card == old(card)[b % 256 := data]
      ensures ok ==> card == old(card)[b % 256 := data]
    {
      log := log + [Store(b % 256)];
      var o := TakeOutcome();
      if o != Refused {
        card := card[b % 256 := data];
      }
      ok := o == Success;
    }

    method ReadDataBlock(b: nat, buffer: array<Byte>, index: nat) returns (ok: bool)
      requires index + 16 <= buffer.Length
      modifies `outcomes, buffer
      ensures ok <==> old(outcomes) != [] && old(outcomes)[0] == Success
      ensures outcomes == if old(outcomes) == [] then [] else old(outcomes)[1..]
      ensures buffer[..] == if ok then Splice(old(buffer[..]), index, card[b % 256]) else old(buffer[..])
    {
      var o := TakeOutcome();
      ok := o == Success;
      if ok {
        MemCpy(buffer, index, card[b % 256]);
      }
    }

    /** The TLV around the message, in a zeroed buffer of whole blocks. */
    method FillBuffer(msg: seq<Byte>) returns (buffer: array<Byte>)
      ensures fresh(buffer) && buffer[..] == TlvBuffer(msg)
    {
      hide BufferSize, TlvHeader, TlvBuffer, Splice;
      HeaderLength(|msg|);
      var size, h := BufferSize(|msg|), TlvHeader(|msg|);
      buffer := new Byte[size](_ => 0);
      ghost var zeros := buffer[..];
      MemCpy(buffer, 0, h);
      MemCpy(buffer, |h|, msg);
      MemCpy(buffer, |h| + |msg|, [0xFE]);
      TlvAssembled(zeros, msg);
    }

    /** The commands for one chunk, up to the first that is not answered. */
    method WriteChunk(currentBlock: nat, data: Block, ghost i: nat) returns (ok: bool, ghost issued: nat)
      requires currentBlock == ChunkBlock(i)
      modifies this
      ensures 0 < issued <= |AccessesOf(i)| && log == old(log) + AccessesOf(i)[..issued]
      ensures card == old(card) || card == old(card)[Addressed(i) := data]
      ensures ok ==> issued == |AccessesOf(i)| && card == old(card)[Addressed(i) := data]
      ensures Answers(old(outcomes), |AccessesOf(i)|) ==> ok && outcomes == old(outcomes)[|AccessesOf(i)|..]
    {
      hide ChunkBlock, IsFirstBlock, Addressed;
      Numbered(i);
      issued := 0;
      if IsFirstBlock(currentBlock) {
        ok := AuthenticateBlock(currentBlock);
        issued := 1;
        assert AccessesOf(i)[..1] == [Auth(Addressed(i))];
        if !ok {
          return;
        }
      }
      ok := WriteDataBlock(currentBlock, data);
      issued := issued + 1;
      assert AccessesOf(i)[..issued] == AccessesOf(i);
    }

    /**
     Writes the message. Whatever the card answers, what is on it afterwards is the first `stored`
     chunks over what was there, and the commands issued are a beginning of the full sequence; so
     the run is safe whenever the message fits the card.
     */
    method Write(msg: seq<Byte>) returns (ok: bool, ghost stored: nat, ghost issued: nat)
      modifies this
      ensures stored <= Chunks(msg) && card == Stored(old(card), TlvBuffer(msg), stored)
      ensures issued <= |Accesses(Chunks(msg))| && log == old(log) + Accesses(Chunks(msg))[..issued]
      ensures ok ==> stored == Chunks(msg) && issued == |Accesses(Chunks(msg))|
      ensures Answers(old(outcomes), |Accesses(Chunks(msg))|) ==> ok
      ensures Chunks(msg) <= 213 ==> Safe(Accesses(Chunks(msg))[..issued])
    {
      hide BufferSize, TlvBuffer, ChunkBlock, IsFirstBlock, Safe, Addressed, AccessesOf, Accesses;
      var buffer := FillBuffer(msg);
      ghost var image, n := buffer[..], Chunks(msg);
      assert n * 16 == |image|;
      var index, currentBlock := 0, 4;
      ghost var i := 0;
      StartsAtFour();
      stored, issued := 0, 0;
      NoAccesses();
      AccessesPrefix(0, n);
      while index < buffer.Length
        invariant 0 <= i <= n && index == 16 * i && currentBlock == ChunkBlock(i)
        invariant stored == i && issued == |Accesses(i)| && log == old(log) + Accesses(i)
        invariant card == Stored(old(card), image, i)
        invariant buffer[..] == image
        invariant |Accesses(i)| <= |Accesses(n)|
        invariant Answers(old(outcomes), |Accesses(n)|) ==> outcomes == old(outcomes)[|Accesses(i)|..]
        decreases n - i
      {
        LoopFollowsChunks(i);
        ghost var before, more := log, 0;
        assert buffer[index..index + 16] == ChunkOf(image, i);
        IssuedSoFar(i, n, |AccessesOf(i)|);
        ok, more := WriteChunk(currentBlock, buffer[index..index + 16], i);
        IssuedSoFar(i, n, more);
        issued := issued + more;
        stored := if card == Stored(old(card), image, i) && !ok then i else i + 1;
        if !ok {
          IssuedIsSafe(n, issued);
          return;
        }
        index := index + 16;
        currentBlock := currentBlock + 1;
        if IsTrailerBlock(currentBlock) {
          currentBlock := currentBlock + 1;
        }
        i := i + 1;
        AccessesNext(i);
      }
      ok := true;
      IssuedIsSafe(n, issued);
      assert Accesses(n)[..issued] == Accesses(n);
    }

    /**
     The message on the card. `garbage` is what the buffer happens to hold: the blocks that are not
     answered keep it.
     */
    method Read(garbage: nat -> Byte) returns (found: Option<Contents>)
      modifies `outcomes
      ensures found == if Answers(old(outcomes), 2) then Some(ReadWith(card, old(outcomes)[2..], garbage)) else None
    {
      hide BufferSize, DecodeTlv, Received, Answers, ChunkBlock, Addressed;
      FirstAnswers(outcomes);
      ghost var all := outcomes;
      var ok := AuthenticateFor();
      if !ok {
        return None;
      }
      var data := new Byte[16](_ => 0);
      ok := ReadDataBlock(4, data, 0);
      if !ok {
        return None;
      }
      assert data[..] == card[4];
      assert all[1..][1..] == all[2..];
      match DecodeTlv(data[..])
      case NotNdef =>
        return Some(NoNdef);
      case PastBlock =>
        return Some(OutOfBounds);
      case Tlv(length, start) =>
        var contents := ReadMessage(length, start, garbage);
        found := Some(contents);
    }

    /** The message whose length and place are known. */
    method ReadMessage(length: nat, start: nat, garbage: nat -> Byte) returns (contents: Contents)
      modifies `outcomes
      ensures contents == Extract(Received(card, old(outcomes), garbage, 0, BufferSize(length) / 16), start, length)
    {
      hide BufferSize, DecodeTlv, Received, Answers;
      var size := BufferSize(length);
      var buffer := ReadChunks(size, garbage);
      if start + length > size {
        return OutOfBounds;
      }
      contents := Message(buffer[start..start + length]);
      assert buffer[start..start + length] == buffer[..][start..start + length];
    }

    /** The reading loop; failures are not acted upon. */
    method ReadChunks(size: nat, garbage: nat -> Byte) returns (buffer: array<Byte>)
      requires size % 16 == 0
      modifies `outcomes
      ensures fresh(buffer) && buffer.Length == size
      ensures buffer[..] == Received(card, old(outcomes), garbage, 0, size / 16)
    {
      hide ChunkBlock, IsFirstBlock, Addressed, Received, Splice, AccessesOf, Rest, Answered, Leftover;
      buffer := new Byte[size](i => garbage(i));
      ghost var n := size / 16;
      var index, currentBlock := 0, 4;
      ghost var i := 0;
      StartsAtFour();
      ghost var all := Received(card, outcomes, garbage, 0, n);
      while index < size
        invariant 0 <= i <= n && index == 16 * i && currentBlock == ChunkBlock(i)
        invariant forall j :: index <= j < size ==> buffer[j] == garbage(j)
        invariant buffer[..index] + Received(card, outcomes, garbage, i, n) == all
        decreases n - i
      {
        LoopFollowsChunks(i);
        ReceivedNext(card, outcomes, garbage, i, n);
        ReadChunk(currentBlock, buffer, index, i, garbage);
        index := index + 16;
        currentBlock := currentBlock + 1;
        if IsTrailerBlock(currentBlock) {
          currentBlock := currentBlock + 1;
        }
        i := i + 1;
      }
      ReceivedNext(card, outcomes, garbage, n, n);
      assert buffer[..size] == buffer[..];
    }

    /** One turn of the loop. */
    method ReadChunk(currentBlock: nat, buffer: array<Byte>, index: nat, ghost i: nat, ghost garbage: nat -> Byte)
      requires currentBlock == ChunkBlock(i) && index + 16 <= buffer.Length && index == 16 * i
      requires forall j :: index <= j < buffer.Length ==> buffer[j] == garbage(j)
      modifies `outcomes, buffer
      ensures outcomes == Rest(old(outcomes), |AccessesOf(i)|)
      ensures buffer[..index + 16] == old(buffer[..index]) + ReceivedChunk(card, old(outcomes), garbage, i)
      ensures forall j :: index + 16 <= j < buffer.Length ==> buffer[j] == garbage(j)
    {
      hide ChunkBlock, IsFirstBlock, Addressed;
      Numbered(i);
      if IsFirstBlock(currentBlock) {
        var _ := AuthenticateFor();
      }
      ghost var image := buffer[..];
      assert image[index..index + 16] == Leftover(garbage, i);
      assert image[..index + 16] == image[..index] + image[index..index + 16];
      SplicedAfter(image, index, card[Addressed(i)]);
      var ok := ReadDataBlock(currentBlock, buffer, index);
      ChunkAnswer(old(outcomes), i);
    }

    /** Authentication before a read leaves no trace on the card. */
    method AuthenticateFor() returns (ok: bool)
      modifies `outcomes
      ensures ok <==> old(outcomes) != [] && old(outcomes)[0] == Success
      ensures outcomes == if old(outcomes) == [] then [] else old(outcomes)[1..]
    {
      var o := TakeOutcome();
      ok := o == Success;
    }
  }

  /** The card carries out and answers the next `n` commands. */
  predicate Answers(outcomes: seq<Outcome>, n: nat) {
    |outcomes| >= n && forall i :: 0 <= i < n ==> outcomes[i] == Success
  }

  /** The command after `n` others is answered. */
  predicate Answered(outcomes: seq<Outcome>, n: nat) {
    n < |outcomes| && outcomes[n] == Success
  }

  /** What is left of the outcomes after `n` commands. */
  function Rest(outcomes: seq<Outcome>, n: nat): seq<Outcome> {
    if n <= |outcomes| then outcomes[n..] else []
  }

  /** What the buffer held where chunk `i` goes. */
  function Leftover(garbage: nat -> Byte, i: nat): Block {
    seq(16, j requires 0 <= j => garbage(16 * i + j))
  }

  /** Chunk `i`, whose block is the last of its commands, or what was in its place. */
  function ReceivedChunk(card: Card, outcomes: seq<Outcome>, garbage: nat -> Byte, i: nat): Block {
    if Answered(outcomes, |AccessesOf(i)| - 1) then card[Addressed(i)] else Leftover(garbage, i)
  }

  /** Chunks `i` to `n - 1` as they are received under these outcomes. */
  function Received(card: Card, outcomes: seq<Outcome>, garbage: nat -> Byte, i: nat, n: nat): (s: seq<Byte>)
    requires i <= n
    ensures |s| == (n - i) * 16
    decreases n - i
  {
    if i == n then [] else
      ReceivedChunk(card, outcomes, garbage, i) + Received(card, Rest(outcomes, |AccessesOf(i)|), garbage, i + 1, n)
  }

  function Extract(data: seq<Byte>, start: nat, length: nat): Contents {
    if start + length > |data| then OutOfBounds else Message(data[start..start + length])
  }

  /** What a read returns once the first block is known, under any outcomes. */
  function ReadWith(card: Card, outcomes: seq<Outcome>, garbage: nat -> Byte): Contents {
    match DecodeTlv(card[4])
    case NotNdef => NoNdef
    case PastBlock => OutOfBounds
    case Tlv(length, start) => Extract(Received(card, outcomes, garbage, 0, BufferSize(length) / 16), start, length)
  }

  /** Answers enough for a whole read after its first block: an authentication for each sector, and each block. */
  function ReadCommands(card: Card): (n: nat) {
    match DecodeTlv(card[4])
    case Tlv(length, _) => |Accesses(BufferSize(length) / 16)|
    case _ => 0
  }

  /** A card that answers gives what is stored on it, whatever the buffer held. */
  lemma AnsweredReadIsReadBack(card: Card, outcomes: seq<Outcome>, garbage: nat -> Byte)
    requires Answers(outcomes, ReadCommands(card))
    ensures ReadWith(card, outcomes, garbage) == ReadBack(card)
  {
    hide Received, Gathered, Answers, Accesses, BufferSize, DecodeTlv;
    match DecodeTlv(card[4])
    case Tlv(length, _) =>
      var n := BufferSize(length) / 16;
      NoAccesses();
      GatheredNext(card, 0);
      AnsweredIsGathered(card, outcomes, garbage, 0, n);
      assert Gathered(card, 0) + Received(card, outcomes, garbage, 0, n) == Received(card, outcomes, garbage, 0, n);
    case _ =>
  }

  lemma {:induction false} AnsweredIsGathered(card: Card, outcomes: seq<Outcome>, garbage: nat -> Byte, i: nat, n: nat)
    requires i <= n && |Accesses(i)| <= |Accesses(n)| && Answers(outcomes, |Accesses(n)| - |Accesses(i)|)
    ensures Gathered(card, i) + Received(card, outcomes, garbage, i, n) == Gathered(card, n)
    decreases n - i
  {
    hide AccessesOf, Addressed, Gathered, Accesses;
    if i < n {
      AccessesPrefix(i + 1, n);
      AccessesNext(i + 1);
      CommandsPerChunk(i);
      var m := |AccessesOf(i)|;
      AnsweredIsGathered(card, Rest(outcomes, m), garbage, i + 1, n);
      GatheredNext(card, i);
    }
  }

  lemma CommandsPerChunk(i: nat)
    ensures 1 <= |AccessesOf(i)| <= 2
    ensures |AccessesOf(i)| == 2 <==> IsFirstBlock(ChunkBlock(i))
  {
  }

  /** The outcome that the block of chunk `i` meets, after its authentication if there is one. */
  lemma ChunkAnswer(outcomes: seq<Outcome>, i: nat)
    ensures var after := if IsFirstBlock(ChunkBlock(i)) then (if outcomes == [] then [] else outcomes[1..]) else outcomes;
            && (Answered(outcomes, |AccessesOf(i)| - 1) <==> after != [] && after[0] == Success)
            && Rest(outcomes, |AccessesOf(i)|) == if after == [] then [] else after[1..]
  {
    hide ChunkBlock, IsFirstBlock, Addressed;
    CommandsPerChunk(i);
  }

  lemma ReceivedNext(card: Card, outcomes: seq<Outcome>, garbage: nat -> Byte, i: nat, n: nat)
    requires i <= n
    ensures i == n ==> Received(card, outcomes, garbage, i, n) == []
    ensures i < n ==>
              Received(card, outcomes, garbage, i, n) ==
              ReceivedChunk(card, outcomes, garbage, i) + Received(card, Rest(outcomes, |AccessesOf(i)|), garbage, i + 1, n)
  {
  }

  lemma FirstAnswers(outcomes: seq<Outcome>)
    ensures Answers(outcomes, 2) <==> |outcomes| >= 2 && outcomes[0] == Success && outcomes[1..][0] == Success
  {
  }

  lemma SplicedAfter(d: seq<Byte>, at: nat, s: seq<Byte>)
    requires at + |s| <= |d|
    ensures Splice(d, at, s)[..at + |s|] == d[..at] + s
  {
  }

  lemma GatheredNext(card: Card, i: nat)
    ensures Gathered(card, i + 1) == Gathered(card, i) + card[Addressed(i)]
    ensures Gathered(card, 0) == []
  {
  }

  lemma NoAccesses()
    ensures Accesses(0) == []
  {
  }

  lemma AccessesNext(i: nat)
    requires i > 0
    ensures Accesses(i) == Accesses(i - 1) + AccessesOf(i - 1)
  {
  }

  /** The commands issued so far are a beginning of all of them. */
  lemma IssuedSoFar(i: nat, n: nat, more: nat)
    requires i < n && more <= |AccessesOf(i)|
    ensures |Accesses(i)| + more <= |Accesses(n)|
    ensures Accesses(n)[..|Accesses(i)| + more] == Accesses(i) + AccessesOf(i)[..more]
  {
    hide AccessesOf;
    AccessesPrefix(i + 1, n);
    var next := Accesses(i) + AccessesOf(i);
    assert Accesses(n)[..|Accesses(i)| + more] == Accesses(n)[..|next|][..|Accesses(i)| + more];
    assert next[..|Accesses(i)| + more] == Accesses(i) + AccessesOf(i)[..more];
  }

  lemma Assembled(d: seq<Byte>, a: seq<Byte>, b: seq<Byte>, c: seq<Byte>)
    requires |a| + |b| + |c| <= |d|
    ensures Splice(Splice(Splice(d, 0, a), |a|, b), |a| + |b|, c) == a + b + c + d[|a| + |b| + |c|..]
  {
  }

  lemma TlvAssembled(zeros: seq<Byte>, msg: seq<Byte>)
    requires |zeros| == BufferSize(|msg|) && forall i :: 0 <= i < |zeros| ==> zeros[i] == 0
    ensures var h := TlvHeader(|msg|);
            && |h| + |msg| + 1 <= |zeros|
            && Splice(Splice(Splice(zeros, 0, h), |h|, msg), |h| + |msg|, [0xFE]) == TlvBuffer(msg)
  {
    hide BufferSize, TlvHeader, Splice;
    HeaderLength(|msg|);
    var h := TlvHeader(|msg|);
    Assembled(zeros, h, msg, [0xFE]);
    assert zeros[|h| + |msg| + 1..] == seq(|zeros| - |h + msg + [0xFE]|, _ => 0);
  }

  lemma StartsAtFour()
    ensures ChunkBlock(0) == 4
  {
  }

  lemma Numbered(i: nat)
    ensures ChunkBlock(i) % 256 == Addressed(i)
  {
  }

  lemma {:induction false} AccessesPrefix(i: nat, n: nat)
    requires i <= n
    ensures |Accesses(i)| <= |Accesses(n)| && Accesses(n)[..|Accesses(i)|] == Accesses(i)
  {
    hide AccessesOf;
    if i < n {
      AccessesPrefix(i, n - 1);
    }
  }

  lemma IssuedIsSafe(n: nat, issued: nat)
    requires issued <= |Accesses(n)|
    ensures n <= 213 ==> Safe(Accesses(n)[..issued])
  {
    hide Safe, Accesses;
    SafeIff(n);
    if n <= 213 {
      SafePrefix(Accesses(n), issued);
    }
  }
}
