/**
 The serial framing of the PN532 driver: normal information frames, section 6.2.1.1 of the PN532
 User Manual UM0701-02, as written by `writeCommand` and recognised by `readResponse`.
 */
module Frame {
  import opened Bytes
  import opened Memory

  const HOST_TO_PN532: Byte := 0xD4
  const PN532_TO_HOST: Byte := 0xD5
  const ACK: seq<Byte> := [0, 0, 0xFF, 0, 0xFF, 0]

  const INVALID_ACK := -1
  const TIMEOUT := -2
  const INVALID_FRAME := -3
  const NO_SPACE := -4

  /** The 8-bit complement that brings `n` to zero. */
  function Complement(n: int): Byte {
    (256 - n % 256) % 256
  }

  /** It is the only byte that does. */
  lemma ComplementIsUnique(n: int, c: Byte)
    ensures (n + c) % 256 == 0 <==> c == Complement(n)
  {
  }

  /** Preamble, start code, length and its checksum, TFI, data, checksum, postamble. */
  function Build(tfi: Byte, data: seq<Byte>): seq<Byte> {
    Assemble(Add8(|data|, 1), Complement(|data| + 1), [tfi] + data, Complement(Sum([tfi] + data)))
  }

  function Assemble(length: Byte, lengthCheck: Byte, body: seq<Byte>, bodyCheck: Byte): seq<Byte> {
    [0, 0, 0xFF, length, lengthCheck] + body + [bodyCheck, 0]
  }

  /** The frame that carries `payload` in answer to `command`. */
  function ResponseTo(command: Byte, payload: seq<Byte>): seq<Byte> {
    Build(PN532_TO_HOST, [Add8(command, 1)] + payload)
  }

  /** The length byte is the length of TFI and data as long as that fits a byte. */
  lemma LengthByteIsTrueIff(tfi: Byte, data: seq<Byte>)
    ensures Build(tfi, data)[3] == |data| + 1 <==> |data| <= 254
  {
  }

  /** Both checksums of every frame written cancel, whatever its length. */
  lemma FramesCheckOut(tfi: Byte, data: seq<Byte>)
    ensures var f := Build(tfi, data);
            && |f| == |data| + 8
            && Add8(f[3], f[4]) == 0
            && Sum(f[5..|f| - 1]) % 256 == 0
  {
    var f, body := Build(tfi, data), [tfi] + data;
    hide Complement, Sum;
    assert f[5..|f| - 1] == body + [Complement(Sum(body))];
    ComplementIsUnique(Sum(body), Complement(Sum(body)));
    ComplementIsUnique(|data| + 1, Complement(|data| + 1));
    SumLast(body, Complement(Sum(body)));
  }

  lemma SumOfOne(a: Byte)
    ensures Sum([a]) == a
  {
    assert [a][..0] == [];
  }

  lemma SumOfTwo(a: Byte, b: Byte)
    ensures Sum([a, b]) == Plus(a, b)
  {
    SumOfOne(a);
    SumLast([a], b);
    assert [a] + [b] == [a, b];
  }

  lemma SumLast(s: seq<Byte>, b: Byte)
    ensures Sum(s + [b]) == Sum(s) + b
  {
    assert (s + [b])[..|s|] == s;
  }

  // ----- reading

  /** A length returned through `int8_t`. */
  function ToInt8(n: nat): int {
    if n % 256 >= 128 then n % 256 - 256 else n % 256
  }

  lemma SmallInt8()
    ensures ToInt8(2) == 2 && ToInt8(3) == 3
  {
  }

  /** The status, the bytes consumed and, when the status is not negative, the payload. */
  datatype Response = Response(status: int, consumed: nat, payload: seq<Byte>)

  /** The line delivers every byte that `readResponse` asks for: no field is cut short. */
  predicate Supplied(s: seq<Byte>, command: Byte, len: Byte) {
    && |s| >= 3
    && (s[..3] == [0, 0, 0xFF] ==>
        && |s| >= 5
        && var n := Add8(s[3], -2);
           (Add8(s[3], s[4]) == 0 && n <= len ==>
            && |s| >= 7
            && (s[5..7] == [PN532_TO_HOST, Add8(command, 1)] ==> |s| >= 7 + n && (n <= 127 ==> |s| >= 9 + n))))
  }

  /** `readResponse` on a stream that holds every byte it asks for. */
  function Read(s: seq<Byte>, command: Byte, len: Byte): Response
    requires Supplied(s, command, len)
  {
    if s[..3] != [0, 0, 0xFF] then Response(INVALID_FRAME, 3, [])
    else if Add8(s[3], s[4]) != 0 then Response(INVALID_FRAME, 5, [])
    else
      var n := Add8(s[3], -2);
      if n > len then Response(NO_SPACE, 5, [])
      else if s[5..7] != [PN532_TO_HOST, Add8(command, 1)] then Response(INVALID_FRAME, 7, [])
      else if ToInt8(n) != n then Response(TIMEOUT, 7 + n, [])
      else if Sum(s[5..8 + n]) % 256 != 0 || s[8 + n] != 0 then Response(INVALID_FRAME, 9 + n, [])
      else Response(n, 9 + n, s[7..7 + n])
  }

  /** A prefix that is a response frame with a payload that fits is accepted and consumed whole. */
  lemma AcceptsResponse(s: seq<Byte>, command: Byte, len: Byte, payload: seq<Byte>)
    requires |payload| <= len && |payload| <= 127
    requires ResponseTo(command, payload) <= s
    ensures Supplied(s, command, len)
    ensures Read(s, command, len) == Response(|payload|, |payload| + 9, payload)
  {
    hide Complement, Sum, Build, Add8, ToInt8;
    var f, n, data := ResponseTo(command, payload), |payload|, [Add8(command, 1)] + payload;
    ShortLength(n);
    FramesCheckOut(PN532_TO_HOST, data);
    FrameParts(PN532_TO_HOST, Add8(command, 1), payload);
    SamePrefix(s, f, 0, 3);
    assert s[3] == f[3] && s[4] == f[4];
    SamePrefix(s, f, 5, 7);
    SamePrefix(s, f, 5, 8 + n);
    SamePrefix(s, f, 7, 7 + n);
    assert s[8 + n] == f[8 + n];
  }

  lemma ShortLength(n: nat)
    requires n <= 127
    ensures Add8(n, 2) == n + 2 && Add8(n + 2, -2) == n && ToInt8(n) == n
  {
  }

  lemma FrameParts(tfi: Byte, cmd: Byte, payload: seq<Byte>)
    ensures var f, n := Build(tfi, [cmd] + payload), |payload|;
            && |f| == n + 9 && f[..3] == [0, 0, 0xFF] && f[3] == Add8(n, 2) && f[5..7] == [tfi, cmd]
            && f[7..7 + n] == payload && f[8 + n] == 0
  {
    hide Complement, Sum;
  }

  lemma SamePrefix(s: seq<Byte>, f: seq<Byte>, i: nat, j: nat)
    requires f <= s && i <= j <= |f|
    ensures s[i..j] == f[i..j]
  {
  }

  lemma JoinSlices(s: seq<Byte>, i: nat, j: nat, k: nat)
    requires i <= j <= k <= |s|
    ensures s[i..j] + s[j..k] == s[i..k]
  {
  }

  /** Nothing else is accepted. */
  lemma AcceptsOnlyResponses(s: seq<Byte>, command: Byte, len: Byte)
    requires Supplied(s, command, len)
    ensures var r := Read(s, command, len);
            r.status >= 0 ==>
              && r.status == |r.payload| && r.consumed == |r.payload| + 9
              && |r.payload| <= len && |r.payload| <= 127
              && ResponseTo(command, r.payload) <= s
  {
    hide Complement, Sum, Build;
    var r := Read(s, command, len);
    if r.status >= 0 {
      FrameFound(s, PN532_TO_HOST, Add8(command, 1), r.status);
    }
  }

  /** Fields with the right checksums are a frame. */
  lemma FrameFound(s: seq<Byte>, tfi: Byte, cmd: Byte, n: Byte)
    requires n <= 127 && |s| >= 9 + n && s[..3] == [0, 0, 0xFF] && s[5..7] == [tfi, cmd] && s[8 + n] == 0
    requires s[3] == n + 2 && Add8(s[3], s[4]) == 0 && Sum(s[5..8 + n]) % 256 == 0
    ensures Build(tfi, [cmd] + s[7..7 + n]) <= s
  {
    hide Complement, Sum, Build, Add8;
    var data := [cmd] + s[7..7 + n];
    var body := [tfi] + data;
    BodyOf(s, tfi, cmd, n);
    SumLast(body, s[7 + n]);
    ComplementIsUnique(Sum(body), s[7 + n]);
    LengthCheck(n, s[4]);
    assert s[..9 + n] == s[..3] + [s[3], s[4]] + s[5..7 + n] + [s[7 + n], s[8 + n]];
    BuildIs(tfi, data, s[3], s[4], s[7 + n]);
  }

  lemma BodyOf(s: seq<Byte>, tfi: Byte, cmd: Byte, n: nat)
    requires |s| >= 9 + n && s[5..7] == [tfi, cmd]
    ensures s[5..7 + n] == [tfi] + ([cmd] + s[7..7 + n])
    ensures s[5..8 + n] == [tfi] + ([cmd] + s[7..7 + n]) + [s[7 + n]]
  {
    JoinSlices(s, 5, 7, 7 + n);
    JoinSlices(s, 5, 7 + n, 8 + n);
    assert s[7 + n..8 + n] == [s[7 + n]];
  }

  lemma LengthCheck(n: Byte, check: Byte)
    requires n <= 127 && Add8(n + 2, check) == 0
    ensures n + 2 == Add8(n + 1, 1) && check == Complement(n + 2)
  {
    ComplementIsUnique(n + 2, check);
  }

  /**
   Exactness: no field is cut short and a payload is returned if and only if the stream begins with
   the response frame that carries it to the last command, the payload fits the buffer and its
   length fits `int8_t`.
   */
  lemma ReadIsExact(s: seq<Byte>, command: Byte, len: Byte, payload: seq<Byte>)
    ensures Supplied(s, command, len) && Read(s, command, len) == Response(|payload|, |payload| + 9, payload)
       <==> ResponseTo(command, payload) <= s && |payload| <= len && |payload| <= 127
  {
    hide Read, ResponseTo, Supplied;
    if Supplied(s, command, len) {
      AcceptsOnlyResponses(s, command, len);
    }
    if ResponseTo(command, payload) <= s && |payload| <= len && |payload| <= 127 {
      AcceptsResponse(s, command, len, payload);
    }
  }

  /**
   A well-formed frame that is not returned: one too long for the buffer is refused after its length,
   one from elsewhere or for another command after its first two bytes, and one of more than 127
   bytes, whose count turns negative, after its payload.
   */
  lemma RefusesOtherFrames(s: seq<Byte>, command: Byte, len: Byte, tfi: Byte, cmd: Byte, payload: seq<Byte>)
    requires |payload| <= 253 && Build(tfi, [cmd] + payload) <= s
    ensures Supplied(s, command, len)
    ensures var foreign := tfi != 0xD5 || cmd != (command + 1) % 256;
            && (|payload| > len ==> Read(s, command, len) == Response(-4, 5, []))
            && (|payload| <= len && foreign ==> Read(s, command, len) == Response(-3, 7, []))
            && (|payload| <= len && !foreign && |payload| > 127 ==> Read(s, command, len) == Response(-2, |payload| + 7, []))
  {
    hide Complement, Sum, Build, Add8, ToInt8;
    var f, n, data := Build(tfi, [cmd] + payload), |payload|, [cmd] + payload;
    LongLength(n);
    Add8Value(command, 1);
    FramesCheckOut(tfi, data);
    FrameParts(tfi, cmd, payload);
    SamePrefix(s, f, 0, 3);
    assert s[3] == f[3] && s[4] == f[4];
    SamePrefix(s, f, 5, 7);
  }

  lemma LongLength(n: nat)
    requires n <= 253
    ensures Add8(n, 2) == n + 2 && Add8(n + 2, -2) == n && ToInt8(n) == if n <= 127 then n else n - 256
  {
  }

  /** A wrong start is refused after three bytes, a wrong length checksum after five, a wrong sum or end with the frame. */
  lemma RefusesDamage(s: seq<Byte>, command: Byte, len: Byte)
    requires Supplied(s, command, len)
    ensures s[..3] != [0, 0, 0xFF] ==> Read(s, command, len) == Response(-3, 3, [])
    ensures s[..3] == [0, 0, 0xFF] && Plus(s[3], s[4]) % 256 != 0 ==> Read(s, command, len) == Response(-3, 5, [])
    ensures s[..3] == [0, 0, 0xFF] && Plus(s[3], s[4]) % 256 == 0 ==>
              var n := Plus(s[3], -2);
              0 <= n <= len && n <= 127 && s[5] == 0xD5 && s[6] == (command + 1) % 256 &&
              (Sum(s[5..8 + n]) % 256 != 0 || s[8 + n] != 0) ==>
                Read(s, command, len) == Response(-3, n + 9, [])
  {
    hide Sum;
  }

  /** The frame that asks for the firmware version, in the form of section 6.2.1.1 of the PN532 user manual. */
  lemma KnownFrame()
    ensures Build(0xD4, [0x02]) == [0, 0, 0xFF, 2, 0xFE, 0xD4, 0x02, 0x2A, 0]
  {
    var body: seq<Byte> := [0xD4] + [0x02];
    assert body == [0xD4, 0x02];
    SumOfTwo(0xD4, 0x02);
    assert Complement(2) == 0xFE && Complement(0xD6) == 0x2A;
  }

  /** Nothing but the bytes consumed is asked for or matters. */
  lemma ConsumedBytesDecide(s: seq<Byte>, command: Byte, len: Byte)
    requires Supplied(s, command, len)
    ensures var r := Read(s, command, len);
            && r.consumed <= |s|
            && Supplied(s[..r.consumed], command, len) && Read(s[..r.consumed], command, len) == r
  {
    hide Sum;
    var r := Read(s, command, len);
    Int8Value(Add8(s[if |s| > 3 then 3 else 0], -2));
    var t := s[..r.consumed];
    assert t[..3] == s[..3];
    if r.consumed >= 7 {
      assert t[5..7] == s[5..7];
    }
    if r.consumed >= 9 {
      var n: int := Add8(s[3], -2);
      if r.consumed == 9 + n {
        assert t[5..8 + n] == s[5..8 + n] && t[7..7 + n] == s[7..7 + n];
      }
    }
  }

  /** The signed byte with the same eight bits. */
  lemma Int8Value(n: nat)
    ensures -128 <= ToInt8(n) < 128 && (n - ToInt8(n)) % 256 == 0
    ensures n < 256 ==> (ToInt8(n) == n <==> n <= 127)
  {
  }

  lemma {:induction false} SumUpdate(s: seq<Byte>, k: nat, b: Byte)
    requires k < |s|
    ensures Sum(s[k := b]) == Sum(s) - s[k] + b
  {
    var n := |s| - 1;
    if k == n {
      assert s[k := b][..n] == s[..n];
    } else {
      SumUpdate(s[..n], k, b);
      assert s[k := b][..n] == s[..n][k := b];
    }
  }

  lemma NearbySumsDiffer(n: int, a: Byte, b: Byte)
    requires n % 256 == 0 && a != b
    ensures (n - a + b) % 256 != 0
  {
  }

  /** No accepted frame survives a change of any one of its bytes. */
  lemma RejectsOneChangedByte(s: seq<Byte>, command: Byte, len: Byte, k: nat, b: Byte)
    requires Supplied(s, command, len)
    requires Read(s, command, len).status >= 0 && k < Read(s, command, len).consumed && b != s[k]
    ensures Supplied(s[k := b], command, len) && Read(s[k := b], command, len).status < 0
  {
    hide Sum;
    if k < 5 {
      RejectsChangedHeader(s, command, len, k, b);
    } else {
      LaterBytes(s, command, len, k, b);
      var n := Read(s, command, len).status;
      if k < 8 + n {
        NearbySumsDiffer(Sum(s[5..8 + n]), s[k], b);
      }
    }
  }

  lemma RejectsChangedHeader(s: seq<Byte>, command: Byte, len: Byte, k: nat, b: Byte)
    requires Supplied(s, command, len)
    requires Read(s, command, len).status >= 0 && k < 5 && b != s[k]
    ensures Supplied(s[k := b], command, len) && Read(s[k := b], command, len).status < 0
  {
    hide Sum;
    var t := s[k := b];
    if k < 3 {
      assert t[..3][k] != s[..3][k];
      assert t[..3] != [0, 0, 0xFF];
    } else {
      assert t[..3] == s[..3];
      NearbySumsDiffer(Plus(s[3], s[4]), s[k], b);
      assert Add8(t[3], t[4]) != 0;
    }
  }

  /** A change after the length field leaves the frame its length and moves its sum by the difference. */
  lemma LaterBytes(s: seq<Byte>, command: Byte, len: Byte, k: nat, b: Byte)
    requires Supplied(s, command, len) && Read(s, command, len).status >= 0 && 5 <= k < |s|
    ensures var n, t := Read(s, command, len).status, s[k := b];
            && t[..3] == s[..3] && t[3] == s[3] && t[4] == s[4]
            && (k < 8 + n ==> Sum(t[5..8 + n]) == Sum(s[5..8 + n]) - s[k] + b)
  {
    hide Sum;
    var n, t := Read(s, command, len).status, s[k := b];
    if k < 8 + n {
      assert t[5..8 + n] == s[5..8 + n][k - 5 := b];
      SumUpdate(s[5..8 + n], k - 5, b);
    }
  }

  // ----- the driver as the source runs it

  /** The running 8-bit sum. */
  method Accumulate(start: Byte, s: seq<Byte>) returns (sum: Byte)
    ensures sum == Add8(start, Sum(s))
  {
    sum := start;
    SumOfNone(start);
    for i := 0 to |s|
      invariant sum == Add8(start, Sum(s[..i]))
    {
      hide Add8, Sum;
      assert s[..i + 1] == s[..i] + [s[i]];
      SumLast(s[..i], s[i]);
      Add8Regroup(start, Sum(s[..i]), s[i]);
      sum := Add8(sum, s[i]);
    }
    assert s[..|s|] == s;
  }

  lemma SumOfNone(start: Byte)
    ensures Add8(start, Sum([])) == start
  {
  }

  lemma Add8Regroup(a: int, b: int, c: int)
    ensures Add8(Add8(a, b), c) == Add8(a, b + c)
  {
  }

  lemma Add8Assoc(a: int, b: int, c: int)
    ensures Add8(Add8(a, b), c) == Add8(Plus(a, b), c) == Add8(a + b, c)
  {
  }

  lemma ComplementOfSum(a: int, b: int)
    ensures Complement(Add8(a, b)) == Complement(a + b)
  {
  }

  /** The checksum comparison made with 8-bit sums is the one on the whole sum. */
  lemma RunningSum(tfi: Byte, cmd: Byte, payload: seq<Byte>, checksum: Byte)
    ensures Add8(Add8(Add8(tfi, cmd), Sum(payload)), checksum) == Sum([tfi, cmd] + (payload + [checksum])) % 256
  {
    hide *;
    SumOfTwo(tfi, cmd);
    SumAppend([tfi, cmd], payload + [checksum]);
    SumLast(payload, checksum);
    Add8Assoc(tfi, cmd, Sum(payload));
    Add8Assoc(Plus(tfi, cmd), Sum(payload), checksum);
    Add8Value(Plus(tfi, cmd) + Sum(payload), checksum);
  }

  lemma Add8Value(a: int, b: int)
    ensures Add8(a, b) == (a + b) % 256
  {
  }

  /** The frame assembled from 8-bit sums is the frame. */
  lemma AssembledFrame(tfi: Byte, header: seq<Byte>, body: seq<Byte>)
    ensures var length := Add8(|header| + |body|, 1);
            Assemble(length, Complement(length), [tfi] + (header + body), Complement(Add8(Add8(tfi, Sum(header)), Sum(body)))) == Build(tfi, header + body)
  {
    hide *;
    var data, length := header + body, Add8(|header| + |body|, 1);
    AssembledSum(tfi, header, body);
    ComplementOfSum(|header| + |body|, 1);
    BuildIs(tfi, data, length, Complement(length), Complement(Add8(Add8(tfi, Sum(header)), Sum(body))));
  }

  lemma AssembledSum(tfi: Byte, header: seq<Byte>, body: seq<Byte>)
    ensures Complement(Add8(Add8(tfi, Sum(header)), Sum(body))) == Complement(Sum([tfi] + (header + body)))
  {
    hide *;
    SumAppend(header, body);
    SumAppend([tfi], header + body);
    SumOfOne(tfi);
    Add8Assoc(tfi, Sum(header), Sum(body));
    ComplementOfSum(tfi + Sum(header), Sum(body));
  }

  lemma BuildIs(tfi: Byte, data: seq<Byte>, length: Byte, lengthCheck: Byte, bodyCheck: Byte)
    requires length == Add8(|data|, 1) && lengthCheck == Complement(|data| + 1)
    requires bodyCheck == Complement(Sum([tfi] + data))
    ensures Assemble(length, lengthCheck, [tfi] + data, bodyCheck) == Build(tfi, data)
  {
    hide Sum, Complement, Add8, Assemble;
  }

  /** The serial port: bytes waiting to be read, bytes written, and the last command. */
  class Hsu {
    var rx: seq<Byte>
    var tx: seq<Byte>
    var command: Byte

    constructor ()
      ensures rx == [] && tx == [] && command == 0
    {
      rx, tx, command := [], [], 0;
    }

    /** Fills `buf` from its start until `len` bytes came or the line fell silent. */
    method Receive(buf: array<Byte>, len: nat) returns (status: int)
      requires len <= buf.Length
      modifies this`rx, buf
      ensures var got := if len <= |old(rx)| then len else |old(rx)|;
              && rx == old(rx)[got..]
              && buf[..] == Splice(old(buf[..]), 0, old(rx)[..got])
              && status == if got < len && got == 0 then TIMEOUT else ToInt8(got)
    {
      var count := 0;
      while count < len
        invariant count <= len && count <= |old(rx)|
        invariant rx == old(rx)[count..]
        invariant forall i :: 0 <= i < buf.Length ==> buf[i] == if i < count then old(rx)[i] else old(buf[i])
      {
        if rx == [] {
          if count > 0 {
            return ToInt8(count);
          }
          return TIMEOUT;
        }
        buf[count] := rx[0];
        rx := rx[1..];
        count := count + 1;
      }
      status := ToInt8(count);
    }

    /** `receive` of a field that is there. */
    method ReceiveField(buf: array<Byte>, len: nat) returns (status: int)
      requires len <= buf.Length && len <= |rx|
      modifies this`rx, buf
      ensures rx == old(rx)[len..] && buf[..len] == old(rx)[..len] && buf[len..] == old(buf[len..])
      ensures status == ToInt8(len)
    {
      status := Receive(buf, len);
    }

    /** The payload, its checksum and the postamble. */
    method ReadBody(buf: array<Byte>, n: Byte, cmd: Byte) returns (status: int)
      requires n <= buf.Length && |rx| >= n && (n <= 127 ==> |rx| >= n + 2)
      modifies this`rx, buf
      ensures ToInt8(n) != n ==> status == TIMEOUT && rx == old(rx)[n..]
      ensures ToInt8(n) == n ==>
                && rx == old(rx)[n + 2..]
                && buf[..n] == old(rx)[..n] && buf[n..] == old(buf[n..])
                && status == if Sum([PN532_TO_HOST, cmd] + old(rx)[..n + 1]) % 256 == 0 && old(rx)[n + 1] == 0
                             then n else INVALID_FRAME
    {
      hide Sum, Add8;
      ghost var s := rx;
      status := ReceiveField(buf, n);
      if status != n {
        return TIMEOUT;
      }
      var sum := Accumulate(Add8(PN532_TO_HOST, cmd), buf[..n]);
      var tmp := new Byte[2](_ => 0);
      status := ReceiveField(tmp, 2);
      assert tmp[..2] == s[n..n + 2] && [tmp[0], tmp[1]] == tmp[..2];
      RunningSum(PN532_TO_HOST, cmd, s[..n], s[n]);
      assert s[..n] + [s[n]] == s[..n + 1];
      if status <= 0 { return TIMEOUT; }
      if Add8(sum, tmp[0]) != 0 || tmp[1] != 0 {
        return INVALID_FRAME;
      }
      status := n;
    }

    /** The start code, and the length that its checksum confirms. */
    method ReadStart() returns (status: int, n: Byte)
      requires |rx| >= 3 && (rx[..3] == [0, 0, 0xFF] ==> |rx| >= 5)
      modifies this`rx
      ensures var s := old(rx);
              if s[..3] != [0, 0, 0xFF] then status == INVALID_FRAME && rx == s[3..]
              else if Add8(s[3], s[4]) != 0 then status == INVALID_FRAME && rx == s[5..]
              else status == 0 && n == Add8(s[3], -2) && rx == s[5..]
    {
      hide Add8, ToInt8;
      n := 0;
      SmallInt8();
      ghost var s := rx;
      var tmp := new Byte[3](_ => 0);
      status := ReceiveField(tmp, 3);
      assert tmp[..3] == s[..3] == [tmp[0], tmp[1], tmp[2]];
      if status <= 0 { return TIMEOUT, n; }
      if tmp[0] != 0 || tmp[1] != 0 || tmp[2] != 0xFF {
        return INVALID_FRAME, n;
      }
      var length := new Byte[2](_ => 0);
      status := ReceiveField(length, 2);
      assert rx == s[5..] && length[..2] == s[3..5] && [length[0], length[1]] == length[..2];
      assert length[..2][0] == s[3] && length[..2][1] == s[4];
      if status <= 0 { return TIMEOUT, n; }
      if Add8(length[0], length[1]) != 0 {
        return INVALID_FRAME, n;
      }
      length[0] := Add8(length[0], -2);
      return 0, length[0];
    }

    /** Reads one response; on success its payload is at the start of `buf`. */
    method ReadResponse(buf: array<Byte>, len: Byte) returns (status: int)
      requires len <= buf.Length
      requires Supplied(rx, command, len)
      modifies this`rx, buf
      ensures var r := Read(old(rx), command, len);
              && status == r.status
              && rx == old(rx)[r.consumed..]
              && (status >= 0 ==> status <= len && buf[..status] == r.payload && buf[status..] == old(buf[status..]))
    {
      hide Sum, Add8, ToInt8;
      SmallInt8();
      ghost var s := rx;
      var n: Byte;
      status, n := ReadStart();
      if status < 0 {
        return;
      }
      if n > len {
        return NO_SPACE;
      }
      var cmd := Add8(command, 1);
      var tmp := new Byte[3](_ => 0);
      status := ReceiveField(tmp, 2);
      assert rx == s[7..] && tmp[..2] == s[5..7] && [tmp[0], tmp[1]] == tmp[..2];
      if status <= 0 { return TIMEOUT; }
      if tmp[0] != PN532_TO_HOST || tmp[1] != cmd {
        return INVALID_FRAME;
      }
      Int8Value(n);
      assert s[7..][..n] == s[7..7 + n];
      if n <= 127 {
        assert s[7..][..n + 1] == s[7..8 + n];
        JoinSlices(s, 5, 7, 8 + n);
      }
      status := ReadBody(buf, n, cmd);
    }

    /** Preamble to postamble, with the sums kept as the bytes go out. */
    method SendFrame(header: seq<Byte>, body: seq<Byte>)
      modifies this`tx
      ensures tx == old(tx) + Build(HOST_TO_PN532, header + body)
    {
      hide Sum, Build, Add8, Complement;
      var length := Add8(|header| + |body|, 1);
      tx := tx + ([0, 0, 0xFF, length, Complement(length)] + ([HOST_TO_PN532] + (header + body)));
      var sum := Accumulate(HOST_TO_PN532, header);
      sum := Accumulate(sum, body);
      tx := tx + [Complement(sum), 0];
      AssembledFrame(HOST_TO_PN532, header, body);
    }

    /** Waits for the acknowledgement; a field cut short is completed by what `stack` happened to hold. */
    method ReadAck(stack: seq<Byte>) returns (status: int)
      requires |stack| == 6
      modifies this`rx
      ensures rx == old(rx)[Taken(old(rx), 6)..] && status == JudgeAck(old(rx), stack)
    {
      var ackBuf := new Byte[6](i requires 0 <= i < 6 => stack[i]);
      assert ackBuf[..] == stack;
      status := Receive(ackBuf, 6);
      if status <= 0 {
        return TIMEOUT;
      }
      if ackBuf[..] != ACK {
        return INVALID_ACK;
      }
      status := 0;
    }

    /**
     Drops what is waiting, writes the frame, and waits for the acknowledgement among the bytes
     that arrive next.
     */
    method WriteCommand(header: seq<Byte>, body: seq<Byte>, arriving: seq<Byte>, stack: seq<Byte>) returns (status: int)
      requires 0 < |header| < 256 && |body| < 256 && |stack| == 6
      modifies this
      ensures command == header[0]
      ensures tx == old(tx) + Build(HOST_TO_PN532, header + body)
      ensures rx == arriving[Taken(arriving, 6)..] && status == JudgeAck(arriving, stack)
    {
      hide Build;
      rx := arriving;
      command := header[0];
      SendFrame(header, body);
      status := ReadAck(stack);
    }

    /**
     A command, its acknowledgement and its response: whatever the buffers hold, the payload comes
     back and the line is left empty.
     */
    method Exchange(header: seq<Byte>, body: seq<Byte>, payload: seq<Byte>, buf: array<Byte>, len: Byte, stack: seq<Byte>)
      returns (status: int)
      requires 0 < |header| < 256 && |body| < 256 && |stack| == 6
      requires |payload| <= len <= buf.Length && |payload| <= 127
      modifies this, buf
      ensures status == |payload| && buf[..status] == payload && buf[status..] == old(buf[status..]) && rx == []
      ensures tx == old(tx) + Build(HOST_TO_PN532, header + body)
    {
      hide Build, Read, Supplied;
      var response := ResponseTo(header[0], payload);
      AcceptsResponse(response, header[0], len, payload);
      FrameParts(PN532_TO_HOST, Add8(header[0], 1), payload);
      assert (ACK + response)[..6] == ACK && (ACK + response)[6..] == response;
      AckIsAccepted(ACK + response, stack);
      status := WriteCommand(header, body, ACK + response, stack);
      status := ReadResponse(buf, len);
    }
  }

  function Taken(s: seq<Byte>, len: nat): nat {
    if len <= |s| then len else |s|
  }

  /** The verdict on the bytes at the front of `s`, completed from `stack` when there are too few. */
  function JudgeAck(s: seq<Byte>, stack: seq<Byte>): int
    requires |stack| == 6
  {
    if s == [] then TIMEOUT
    else if s[..Taken(s, 6)] + stack[Taken(s, 6)..] == ACK then 0
    else INVALID_ACK
  }

  /** With all its bytes there, the acknowledgement alone decides. */
  lemma AckIsAccepted(s: seq<Byte>, stack: seq<Byte>)
    requires |stack| == 6 && |s| >= 6
    ensures JudgeAck(s, stack) == 0 <==> ACK <= s
  {
    assert s[..6] + stack[6..] == s[..6];
  }
}
