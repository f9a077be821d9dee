/**
 The Redis client's printer and parser. A bulk string leaves its closing CRLF unread; the next
 parse skips it. These are the "Simple Strings", "Bulk Strings" and "Arrays" formats of the Redis
 serialization protocol.
 */
module Resp {
  import opened Bytes

  const CR: Byte := 13
  const LF: Byte := 10
  const CRLF: seq<Byte> := [CR, LF]

  const PLUS: Byte := 0x2B
  const MINUS: Byte := 0x2D
  const COLON: Byte := 0x3A
  const DOLLAR: Byte := 0x24
  const STAR: Byte := 0x2A

  datatype ErrorCode = UnknownError | UnknownType | Disconnected

  datatype Value =
    | Simple(data: seq<Byte>)
    | Integer(data: seq<Byte>)
    | Bulk(data: seq<Byte>)
    | NullBulk
    | Array(items: seq<Value>)
    | InternalError(code: ErrorCode, message: seq<Byte>)

  /** Built only from what the client prints, that is, with no internal error anywhere in it. */
  predicate Wire(v: Value) {
    match v
    case InternalError(_, _) => false
    case Array(items) => forall i :: 0 <= i < |items| ==> Wire(items[i])
    case _ => true
  }

  // ----- decimal numbers

  predicate IsDigit(b: Byte) {
    0x30 <= b <= 0x39
  }

  /** `String(n)`. */
  function Decimal(n: nat): (s: seq<Byte>)
    ensures s != [] && forall i :: 0 <= i < |s| ==> IsDigit(s[i])
    ensures n > 0 ==> s[0] != 0x30
    ensures n == 0 ==> s == [0x30]
  {
    if n < 10 then [0x30 + n] else Decimal(n / 10) + [0x30 + n % 10]
  }

  /** The digits at the front of `s`, read onto `acc`. */
  function ReadDigits(s: seq<Byte>, acc: nat): nat {
    if s == [] || !IsDigit(s[0]) then acc else ReadDigits(s[1..], acc * 10 + (s[0] - 0x30))
  }

  function SkipSpace(s: seq<Byte>): seq<Byte> {
    if s != [] && (s[0] == 0x20 || 9 <= s[0] <= 13) then SkipSpace(s[1..]) else s
  }

  /** `atol`: blanks, a sign, then digits up to the first other character. */
  function ToInt(s: seq<Byte>): int {
    var t := SkipSpace(s);
    if t == [] then 0
    else if t[0] == MINUS then 0 - ReadDigits(t[1..], 0)
    else if t[0] == PLUS then ReadDigits(t[1..], 0)
    else ReadDigits(t, 0)
  }

  lemma {:induction false} ReadDigitsAppend(a: seq<Byte>, b: seq<Byte>, acc: nat)
    requires forall i :: 0 <= i < |a| ==> IsDigit(a[i])
    ensures ReadDigits(a + b, acc) == ReadDigits(b, ReadDigits(a, acc))
  {
    if a == [] {
      assert a + b == b;
    } else {
      assert (a + b)[1..] == a[1..] + b;
      ReadDigitsAppend(a[1..], b, acc * 10 + (a[0] - 0x30));
    }
  }

  lemma {:induction false} ReadDecimal(n: nat)
    ensures ReadDigits(Decimal(n), 0) == n
  {
    var last: Byte := 0x30 + n % 10;
    assert [last][1..] == [];
    assert forall acc: nat {:trigger ReadDigits([last], acc)} :: ReadDigits([last], acc) == acc * 10 + n % 10;
    if n >= 10 {
      ReadDecimal(n / 10);
      ReadDigitsAppend(Decimal(n / 10), [last], 0);
    }
  }

  /** Blanks, a minus sign and what follows the digits are read as `atol` reads them. */
  lemma {:induction false} ToIntReads(blanks: seq<Byte>, n: nat, rest: seq<Byte>)
    requires forall i :: 0 <= i < |blanks| ==> blanks[i] == 0x20 || 9 <= blanks[i] <= 13
    requires rest == [] || rest[0] < 0x30 || 0x39 < rest[0]
    ensures ToInt(blanks + (Decimal(n) + rest)) == n
    ensures ToInt(blanks + ([MINUS] + (Decimal(n) + rest))) == 0 - n
    ensures ToInt(blanks + ([PLUS] + (Decimal(n) + rest))) == n
  {
    hide Decimal, ReadDigits;
    var number := Decimal(n) + rest;
    assert IsDigit(number[0]);
    SkipsBlanks(blanks, number);
    SkipsBlanks(blanks, [MINUS] + number);
    SkipsBlanks(blanks, [PLUS] + number);
    assert ([MINUS] + number)[1..] == number && ([PLUS] + number)[1..] == number;
    ReadDigitsAppend(Decimal(n), rest, 0);
    ReadDecimal(n);
    NoDigits(rest, n);
  }

  /** Without digits it is 0. */
  lemma ToIntOfNothing(blanks: seq<Byte>, rest: seq<Byte>)
    requires forall i :: 0 <= i < |blanks| ==> blanks[i] == 0x20 || 9 <= blanks[i] <= 13
    requires rest == [] || rest[0] > 0x39
    ensures ToInt(blanks + rest) == 0
  {
    if rest == [] {
      OnlyBlanks(blanks);
      assert blanks + rest == blanks;
    } else {
      SkipsBlanks(blanks, rest);
    }
  }

  lemma {:induction false} OnlyBlanks(blanks: seq<Byte>)
    requires forall i :: 0 <= i < |blanks| ==> blanks[i] == 0x20 || 9 <= blanks[i] <= 13
    ensures SkipSpace(blanks) == []
  {
    if blanks != [] {
      OnlyBlanks(blanks[1..]);
    }
  }

  lemma NoDigits(rest: seq<Byte>, acc: nat)
    requires rest == [] || !IsDigit(rest[0])
    ensures ReadDigits(rest, acc) == acc
  {
  }

  lemma {:induction false} SkipsBlanks(blanks: seq<Byte>, s: seq<Byte>)
    requires forall i :: 0 <= i < |blanks| ==> blanks[i] == 0x20 || 9 <= blanks[i] <= 13
    requires s != [] && !(s[0] == 0x20 || 9 <= s[0] <= 13)
    ensures SkipSpace(blanks + s) == s
  {
    if blanks == [] {
      assert blanks + s == s;
    } else {
      assert (blanks + s)[1..] == blanks[1..] + s;
      SkipsBlanks(blanks[1..], s);
    }
  }

  /** Lengths and counts survive printing and reading. */
  lemma DecimalRoundTrip(n: nat)
    ensures ToInt(Decimal(n)) == n
  {
    ReadDecimal(n);
    assert IsDigit(Decimal(n)[0]);
  }

  // ----- printing

  /** `data.replace(CRLF, "")`, one pass from the left. */
  function RemoveCrlf(s: seq<Byte>): (r: seq<Byte>)
    ensures CR !in s ==> r == s
  {
    if s == [] then []
    else if |s| >= 2 && s[0] == CR && s[1] == LF then RemoveCrlf(s[2..])
    else [s[0]] + RemoveCrlf(s[1..])
  }

  function Print(v: Value): (s: seq<Byte>)
    requires Wire(v)
    decreases v, 0
  {
    match v
    case Simple(data) => [PLUS] + RemoveCrlf(data) + CRLF
    case Integer(data) => [COLON] + RemoveCrlf(data) + CRLF
    case Bulk(data) => [DOLLAR] + Decimal(|data|) + CRLF + data + CRLF
    case NullBulk => [DOLLAR] + Decimal(0) + CRLF + CRLF
    case Array(items) => [STAR] + Decimal(|items|) + CRLF + PrintAll(items)
  }

  function PrintAll(vs: seq<Value>): seq<Byte>
    requires forall i :: 0 <= i < |vs| ==> Wire(vs[i])
    decreases vs
  {
    if vs == [] then [] else Print(vs[0]) + PrintAll(vs[1..])
  }

  // ----- parsing

  /** What `readStringUntil('\\r')` returns. */
  function Line(s: seq<Byte>): (r: seq<Byte>)
    ensures |r| <= |s| && CR !in r
  {
    if s == [] || s[0] == CR then [] else [s[0]] + Line(s[1..])
  }

  /** The stream after the line, its CR and one more byte, taken to be LF. */
  function AfterLine(s: seq<Byte>): (r: seq<Byte>)
    ensures |r| <= |s|
  {
    var n := |Line(s)| + 2;
    if n <= |s| then s[n..] else []
  }

  predicate IsBreak(b: Byte) {
    b == CR || b == LF
  }

  function SkipBreaks(s: seq<Byte>): (r: seq<Byte>)
    ensures |r| <= |s|
    ensures r != [] ==> !IsBreak(r[0])
  {
    if s != [] && IsBreak(s[0]) then SkipBreaks(s[1..]) else s
  }

  /** A value and the unread stream; or the program exits on a bulk string cut short. */
  datatype Parsed = Parsed(value: Value, rest: seq<Byte>) | Abort

  datatype ParsedItems = Items(values: seq<Value>, rest: seq<Byte>) | AbortItems

  function AsArray(p: ParsedItems): Parsed {
    match p
    case Items(values, rest) => Parsed(Array(values), rest)
    case AbortItems => Abort
  }

  function ParseBulk(s: seq<Byte>): (r: Parsed)
    ensures r.Parsed? ==> |r.rest| <= |s|
  {
    var n, t := ToInt(Line(s)), AfterLine(s);
    if n == -1 then Parsed(NullBulk, t)
    else if n < 0 || |t| < n then Abort
    else Parsed(Bulk(CString(t[..n])), t[n..])
  }

  /** The stream ends by disconnection: the client counts as connected while bytes remain. */
  function ParseType(s: seq<Byte>): (r: Parsed)
    ensures r.Parsed? ==> |r.rest| <= |s|
    decreases |s|, 0
  {
    var u := SkipBreaks(s);
    if u == [] then Parsed(InternalError(Disconnected, []), [])
    else
      var t := u[1..];
      if u[0] == PLUS then Parsed(Simple(Line(t)), AfterLine(t))
      else if u[0] == COLON then Parsed(Integer(Line(t)), AfterLine(t))
      else if u[0] == MINUS then Parsed(InternalError(UnknownError, Line(t)), AfterLine(t))
      else if u[0] == DOLLAR then ParseBulk(t)
      else if u[0] == STAR then
        var n := ToInt(Line(t));
        AsArray(ParseItems(if n < 0 then 0 else n, AfterLine(t)))
      else Parsed(InternalError(UnknownType, Decimal(u[0])), t)
  }

  /** `n` calls of `parseType` in a row: the items of an array, or the replies on a connection. */
  function ParseItems(n: nat, s: seq<Byte>): (r: ParsedItems)
    ensures r.Items? ==> |r.rest| <= |s| && |r.values| == n
    decreases |s|, n + 1
  {
    if n == 0 then Items([], s)
    else
      match ParseType(s)
      case Abort => AbortItems
      case Parsed(v, t) =>
        match ParseItems(n - 1, t)
        case AbortItems => AbortItems
        case Items(vs, rest) => Items([v] + vs, rest)
  }

  // ----- staying in step

  /** The values that come back: no CR where a line is read, no NUL where a C string is built. */
  predicate Faithful(v: Value) {
    match v
    case Simple(data) => CR !in data
    case Integer(data) => CR !in data
    case Bulk(data) => 0 !in data
    case NullBulk => false
    case Array(items) => forall i :: 0 <= i < |items| ==> Faithful(items[i])
    case InternalError(_, _) => false
  }

  /** What a parse of `v` leaves unread of its own printing: one CRLF after a bulk string. */
  function Pending(v: Value): seq<Byte> {
    match v
    case Bulk(_) => CRLF
    case NullBulk => CRLF
    case Array(items) => if items == [] then [] else Pending(items[|items| - 1])
    case _ => []
  }

  predicate AllBreaks(s: seq<Byte>) {
    forall i :: 0 <= i < |s| ==> IsBreak(s[i])
  }

  lemma {:induction false} PendingIsBreaks(v: Value)
    ensures AllBreaks(Pending(v)) && |Pending(v)| <= 2
  {
    if v.Array? && v.items != [] {
      PendingIsBreaks(v.items[|v.items| - 1]);
    }
  }

  lemma {:induction false} SkipsBreaks(breaks: seq<Byte>, s: seq<Byte>)
    requires AllBreaks(breaks) && s != [] && !IsBreak(s[0])
    ensures SkipBreaks(breaks + s) == s
  {
    if breaks == [] {
      assert breaks + s == s;
    } else {
      assert (breaks + s)[1..] == breaks[1..] + s;
      SkipsBreaks(breaks[1..], s);
    }
  }

  lemma {:induction false} LineOf(data: seq<Byte>, rest: seq<Byte>)
    requires CR !in data
    ensures Line(data + CRLF + rest) == data && AfterLine(data + CRLF + rest) == rest
  {
    var s := data + CRLF + rest;
    LineUpTo(data, CRLF + rest);
    assert data + (CRLF + rest) == s;
    assert s[|data| + 2..] == rest;
  }

  lemma {:induction false} LineUpTo(data: seq<Byte>, rest: seq<Byte>)
    requires CR !in data && rest != [] && rest[0] == CR
    ensures Line(data + rest) == data
  {
    if data == [] {
      assert data + rest == rest;
    } else {
      assert (data + rest)[1..] == data[1..] + rest;
      LineUpTo(data[1..], rest);
    }
  }

  lemma CountLine(n: nat, rest: seq<Byte>)
    ensures var s := Decimal(n) + CRLF + rest; ToInt(Line(s)) == n && AfterLine(s) == rest
  {
    hide Line, AfterLine, ToInt;
    assert CR !in Decimal(n);
    LineOf(Decimal(n), rest);
    DecimalRoundTrip(n);
  }

  lemma Regroup(a: seq<Byte>, b: seq<Byte>, c: seq<Byte>, d: seq<Byte>)
    ensures a + b + c + d == a + (b + c + d)
  {
  }

  lemma BulkByLength(s: seq<Byte>, tail: seq<Byte>, n: nat)
    requires ToInt(Line(s)) == n && AfterLine(s) == tail && n <= |tail|
    ensures ParseBulk(s) == Parsed(Bulk(CString(tail[..n])), tail[n..])
  {
  }

  lemma ArrayByCount(s: seq<Byte>, t: seq<Byte>, n: nat)
    requires SkipBreaks(s) == [STAR] + t && ToInt(Line(t)) == n
    ensures ParseType(s) == AsArray(ParseItems(n, AfterLine(t)))
  {
    hide Line, AfterLine, ToInt, ParseItems, ParseBulk, SkipBreaks, Decimal;
    assert ([STAR] + t)[1..] == t;
  }

  /** A bulk string comes back exactly when it holds no NUL, and its CRLF stays behind. */
  lemma BulkRoundTrip(data: seq<Byte>, rest: seq<Byte>)
    ensures ParseBulk(Decimal(|data|) + CRLF + data + CRLF + rest) == Parsed(Bulk(CString(data)), CRLF + rest)
    ensures CString(data) == data <==> 0 !in data
  {
    hide *;
    var count, tail := Decimal(|data|) + CRLF, data + CRLF + rest;
    Regroup(count, data, CRLF, rest);
    CountLine(|data|, tail);
    BulkByLength(count + tail, tail, |data|);
    TakeAndDrop(data, CRLF, rest);
  }

  lemma TakeAndDrop(a: seq<Byte>, b: seq<Byte>, c: seq<Byte>)
    ensures (a + b + c)[..|a|] == a && (a + b + c)[|a|..] == b + c
  {
  }

  /** A printed value, as the parser meets it: its type byte, and the stream after that. */
  lemma ParseBody(breaks: seq<Byte>, kind: Byte, body: seq<Byte>, rest: seq<Byte>)
    requires AllBreaks(breaks) && !IsBreak(kind)
    ensures SkipBreaks(breaks + ([kind] + body) + rest) == [kind] + (body + rest)
  {
    assert breaks + ([kind] + body) + rest == breaks + ([kind] + (body + rest));
    SkipsBreaks(breaks, [kind] + (body + rest));
  }

  lemma {:induction false} LineRoundTrip(data: seq<Byte>, rest: seq<Byte>)
    ensures CR !in data ==> Line(RemoveCrlf(data) + CRLF + rest) == data && AfterLine(RemoveCrlf(data) + CRLF + rest) == rest
    ensures Line(RemoveCrlf(data) + CRLF + rest) == data <==> CR !in data
  {
    if CR !in data {
      LineOf(data, rest);
    }
  }

  /**
   Behind any line breaks and before any continuation, a printed value comes back exactly when it
   is faithful, and then the unread stream is its pending CRLF, if any, and the continuation.
   */
  lemma {:induction false} ValueRoundTrip(v: Value, breaks: seq<Byte>, rest: seq<Byte>)
    requires Wire(v) && AllBreaks(breaks)
    ensures var p := ParseType(breaks + Print(v) + rest);
            && (p.Parsed? && p.value == v <==> Faithful(v))
            && (Faithful(v) ==> p == Parsed(v, Pending(v) + rest))
    decreases v, 0
  {
    hide ParseType, Print, Faithful, Pending;
    match v
    case Simple(data) => SimpleRoundTrip(data, breaks, rest);
    case Integer(data) => IntegerRoundTrip(data, breaks, rest);
    case Bulk(data) => BulkValueRoundTrip(data, breaks, rest);
    case NullBulk => NullIsNotFaithful(breaks, rest);
    case Array(items) => ArrayRoundTrip(items, breaks, rest);
  }

  lemma SimpleRoundTrip(data: seq<Byte>, breaks: seq<Byte>, rest: seq<Byte>)
    requires AllBreaks(breaks)
    ensures var v, p := Simple(data), ParseType(breaks + Print(Simple(data)) + rest);
            && (p.Parsed? && p.value == v <==> Faithful(v))
            && (Faithful(v) ==> p == Parsed(v, Pending(v) + rest))
  {
    hide Line, AfterLine, ToInt, Decimal, SkipBreaks, RemoveCrlf, CString;
    ParseBody(breaks, PLUS, RemoveCrlf(data) + CRLF, rest);
    assert Print(Simple(data)) == [PLUS] + (RemoveCrlf(data) + CRLF);
    LineRoundTrip(data, rest);
  }

  lemma IntegerRoundTrip(data: seq<Byte>, breaks: seq<Byte>, rest: seq<Byte>)
    requires AllBreaks(breaks)
    ensures var v, p := Integer(data), ParseType(breaks + Print(Integer(data)) + rest);
            && (p.Parsed? && p.value == v <==> Faithful(v))
            && (Faithful(v) ==> p == Parsed(v, Pending(v) + rest))
  {
    hide Line, AfterLine, ToInt, Decimal, SkipBreaks, RemoveCrlf, CString;
    ParseBody(breaks, COLON, RemoveCrlf(data) + CRLF, rest);
    assert Print(Integer(data)) == [COLON] + (RemoveCrlf(data) + CRLF);
    LineRoundTrip(data, rest);
  }

  lemma BulkValueRoundTrip(data: seq<Byte>, breaks: seq<Byte>, rest: seq<Byte>)
    requires AllBreaks(breaks)
    ensures var v, p := Bulk(data), ParseType(breaks + Print(Bulk(data)) + rest);
            && (p.Parsed? && p.value == v <==> Faithful(v))
            && (Faithful(v) ==> p == Parsed(v, Pending(v) + rest))
  {
    hide Line, AfterLine, ToInt, Decimal, SkipBreaks, RemoveCrlf, CString, ParseBulk;
    ParseBody(breaks, DOLLAR, Decimal(|data|) + CRLF + data + CRLF, rest);
    assert Print(Bulk(data)) == [DOLLAR] + (Decimal(|data|) + CRLF + data + CRLF);
    BulkRoundTrip(data, rest);
  }

  /** A null bulk string is printed as an empty one. */
  lemma NullIsNotFaithful(breaks: seq<Byte>, rest: seq<Byte>)
    requires AllBreaks(breaks)
    ensures !Faithful(NullBulk)
    ensures ParseType(breaks + Print(NullBulk) + rest) == Parsed(Bulk([]), CRLF + rest)
  {
    hide Line, AfterLine, ToInt, Decimal, SkipBreaks, RemoveCrlf, ParseBulk;
    ParseBody(breaks, DOLLAR, Decimal(0) + CRLF + CRLF, rest);
    assert Print(NullBulk) == [DOLLAR] + (Decimal(0) + CRLF + CRLF);
    BulkRoundTrip([], rest);
    assert Decimal(0) + CRLF + [] + CRLF + rest == Decimal(0) + CRLF + CRLF + rest;
  }

  lemma {:induction false} ArrayRoundTrip(items: seq<Value>, breaks: seq<Byte>, rest: seq<Byte>)
    requires Wire(Array(items)) && AllBreaks(breaks)
    ensures var v, p := Array(items), ParseType(breaks + Print(Array(items)) + rest);
            && (p.Parsed? && p.value == v <==> Faithful(v))
            && (Faithful(v) ==> p == Parsed(v, Pending(v) + rest))
    decreases items, 1
  {
    hide ParseItems, ParseType, Print, Faithful, Pending;
    ArrayStream(items, breaks, rest);
    ItemsRoundTrip(items, [], rest);
    ArrayMeaning(items);
  }

  lemma ArrayMeaning(items: seq<Value>)
    ensures Faithful(Array(items)) <==> AllFaithful(items)
    ensures Pending(Array(items)) == PendingAfter([], items)
  {
  }

  /** A printed array is parsed by parsing its items from its printed items. */
  lemma ArrayStream(items: seq<Value>, breaks: seq<Byte>, rest: seq<Byte>)
    requires Wire(Array(items)) && AllBreaks(breaks)
    ensures ParseType(breaks + Print(Array(items)) + rest) == AsArray(ParseItems(|items|, [] + PrintAll(items) + rest))
  {
    hide Line, AfterLine, ToInt, Decimal, SkipBreaks, ParseItems, ParseType, PrintAll, AllBreaks;
    var count, all := Decimal(|items|) + CRLF, PrintAll(items);
    assert Print(Array(items)) == [STAR] + (count + all);
    ParseBody(breaks, STAR, count + all, rest);
    assert count + all + rest == count + (all + rest);
    CountLine(|items|, all + rest);
    ArrayByCount(breaks + Print(Array(items)) + rest, count + all + rest, |items|);
    assert [] + all + rest == all + rest;
  }

  function PendingAfter(breaks: seq<Byte>, vs: seq<Value>): seq<Byte> {
    if vs == [] then breaks else Pending(vs[|vs| - 1])
  }

  predicate AllFaithful(vs: seq<Value>) {
    forall i :: 0 <= i < |vs| ==> Faithful(vs[i])
  }

  lemma FaithfulHead(vs: seq<Value>)
    ensures AllFaithful(vs) <==> vs == [] || (Faithful(vs[0]) && AllFaithful(vs[1..]))
  {
    hide Faithful;
    if vs != [] && Faithful(vs[0]) && AllFaithful(vs[1..]) {
      assert forall i :: 1 <= i < |vs| ==> vs[i] == vs[1..][i - 1];
    }
  }

  /** The values printed back to back: each parse leaves at most one CRLF, which the next skips. */
  lemma {:induction false} ItemsRoundTrip(vs: seq<Value>, breaks: seq<Byte>, rest: seq<Byte>)
    requires AllBreaks(breaks) && forall i :: 0 <= i < |vs| ==> Wire(vs[i])
    ensures var p := ParseItems(|vs|, breaks + PrintAll(vs) + rest);
            && (p.Items? && p.values == vs <==> AllFaithful(vs))
            && (AllFaithful(vs) ==> p == Items(vs, PendingAfter(breaks, vs) + rest))
    decreases vs, 0
  {
    hide ParseType, Pending, Print, Faithful, AllFaithful;
    FaithfulHead(vs);
    if vs == [] {
      assert breaks + [] + rest == breaks + rest;
    } else {
      var v, tail := vs[0], PrintAll(vs[1..]) + rest;
      assert vs == [v] + vs[1..];
      assert breaks + PrintAll(vs) + rest == breaks + Print(v) + tail;
      ValueRoundTrip(v, breaks, tail);
      if Faithful(v) {
        PendingIsBreaks(v);
        ItemsRoundTrip(vs[1..], Pending(v), rest);
        assert Pending(v) + tail == Pending(v) + PrintAll(vs[1..]) + rest;
      }
    }
  }

  /**
   Stream synchronisation: for every list of printable values, printing them back to back and
   parsing as many values as were printed returns the same list exactly when each is faithful;
   then at most one CRLF is left, and one more parse reports the disconnection.
   */
  lemma StreamStaysInStep(vs: seq<Value>)
    requires forall i :: 0 <= i < |vs| ==> Wire(vs[i])
    ensures var p := ParseItems(|vs|, PrintAll(vs));
            && (p.Items? && p.values == vs <==> AllFaithful(vs))
            && (AllFaithful(vs) ==> |p.rest| <= 2 && ParseType(p.rest) == Parsed(InternalError(Disconnected, []), []))
  {
    hide ParseItems, Print, Faithful, Pending;
    ItemsRoundTrip(vs, [], []);
    assert [] + PrintAll(vs) + [] == PrintAll(vs);
    if AllFaithful(vs) && vs != [] {
      var left := Pending(vs[|vs| - 1]);
      assert left + [] == left;
      PendingIsBreaks(vs[|vs| - 1]);
      OnlyBreaks(left);
    }
  }

  lemma {:induction false} OnlyBreaks(s: seq<Byte>)
    requires AllBreaks(s)
    ensures SkipBreaks(s) == []
  {
    if s != [] {
      OnlyBreaks(s[1..]);
    }
  }

  /** A command and its arguments, as `RedisCommand` builds them. */
  function Command(words: seq<seq<Byte>>): Value {
    Array(seq(|words|, i requires 0 <= i < |words| => Bulk(words[i])))
  }

  /** A command without NUL bytes reads back as the same words, CR and LF included. */
  lemma CommandRoundTrip(words: seq<seq<Byte>>, rest: seq<Byte>)
    requires forall i :: 0 <= i < |words| ==> 0 !in words[i]
    ensures Wire(Command(words))
    ensures ParseType(Print(Command(words)) + rest) ==
            Parsed(Command(words), (if words == [] then [] else CRLF) + rest)
  {
    hide Print, ParseType;
    ValueRoundTrip(Command(words), [], rest);
    assert [] + Print(Command(words)) + rest == Print(Command(words)) + rest;
  }

  // ----- the client as the source runs it

  /** The connection: the peer has sent `input` and closes when it is consumed. */
  class Client {
    var input: seq<Byte>

    method Connected() returns (b: bool)
      ensures b <==> input != []
    {
      b := input != [];
    }

    method Read() returns (c: int)
      modifies this
      ensures old(input) == [] ==> c == -1 && input == []
      ensures old(input) != [] ==> c == old(input)[0] && input == old(input)[1..]
    {
      if input == [] {
        return -1;
      }
      c := input[0];
      input := input[1..];
    }

    /** The line, with its CR consumed. */
    method ReadStringUntilCr() returns (line: seq<Byte>)
      modifies this
      ensures line == Line(old(input))
      ensures input == if |line| < |old(input)| then old(input)[|line| + 1..] else []
    {
      line := [];
      var c := Read();
      while c >= 0 && c != CR as int
        invariant -1 <= c < 256
        invariant c == -1 ==> line == Line(old(input)) && |line| == |old(input)| && input == []
        invariant c >= 0 ==> |line| < |old(input)| && c == old(input)[|line|] && input == old(input)[|line| + 1..]
        invariant c >= 0 ==> Line(old(input)) == line + Line(old(input)[|line|..])
        decreases |input| + (if c >= 0 then 1 else 0)
      {
        ghost var at := old(input)[|line|..];
        assert at[1..] == input;
        assert line + ([at[0]] + Line(at[1..])) == line + [at[0]] + Line(at[1..]);
        line := line + [c];
        ghost var unread := input;
        c := Read();
        assert old(input)[|line|..] == unread;
      }
    }

    /** `RedisObject::init`: a line, and one byte after its CR. */
    method ReadLine() returns (line: seq<Byte>)
      modifies this
      ensures line == Line(old(input)) && input == AfterLine(old(input))
    {
      line := ReadStringUntilCr();
      var _ := Read();
    }

    /** Up to `n` bytes. */
    method ReadBytes(n: nat) returns (buf: seq<Byte>)
      modifies this
      ensures buf == if n <= |old(input)| then old(input)[..n] else old(input)
      ensures input == old(input)[|buf|..]
    {
      buf := if n <= |input| then input[..n] else input;
      input := input[|buf|..];
    }
  }

  function Prepend(vs: seq<Value>, p: ParsedItems): ParsedItems {
    match p
    case Items(values, rest) => Items(vs + values, rest)
    case AbortItems => AbortItems
  }

  /** `RedisBulkString::init`, after its line has been read. */
  method ReadBulk(c: Client) returns (p: Parsed)
    modifies c
    ensures p == ParseBulk(old(c.input))
    ensures p.Parsed? ==> c.input == p.rest
  {
    var line := c.ReadLine();
    var n := ToInt(line);
    if n == -1 {
      return Parsed(NullBulk, c.input);
    }
    if n < 0 {
      return Abort;
    }
    var buf := c.ReadBytes(n);
    if |buf| != n {
      return Abort;
    }
    p := Parsed(Bulk(CString(buf)), c.input);
  }

  /** `RedisArray::init`: the loop over its items. */
  method ReadArray(c: Client) returns (p: Parsed)
    modifies c
    ensures p == AsArray(ParseItems(var n := ToInt(Line(old(c.input))); if n < 0 then 0 else n, AfterLine(old(c.input))))
    ensures p.Parsed? ==> c.input == p.rest
    decreases |c.input|, 2
  {
    hide ParseType, Line, AfterLine, ToInt;
    var line := c.ReadLine();
    var n := ToInt(line);
    var vec: seq<Value>, i := [], 0;
    ghost var count, start := if n < 0 then 0 else n, c.input;
    while i < n
      invariant 0 <= i <= count
      invariant |c.input| <= |old(c.input)|
      invariant ParseItems(count, start) == Prepend(vec, ParseItems(count - i, c.input))
    {
      var item := ReadValue(c);
      if item.Abort? {
        return Abort;
      }
      vec := vec + [item.value];
      i := i + 1;
    }
    assert vec + [] == vec;
    p := Parsed(Array(vec), c.input);
  }

  /** `RedisObject::parseType`. */
  method ReadValue(c: Client) returns (p: Parsed)
    modifies c
    ensures p == ParseType(old(c.input))
    ensures p.Parsed? ==> c.input == p.rest
    decreases |c.input|, 1
  {
    hide Line, AfterLine, ToInt, ParseItems;
    var typeChar := -1;
    while typeChar == -1 || typeChar == CR as int || typeChar == LF as int
      invariant -1 <= typeChar < 256
      invariant |c.input| <= |old(c.input)| && (typeChar >= 0 ==> |c.input| < |old(c.input)|)
      invariant SkipBreaks(old(c.input)) ==
                if typeChar >= 0 && typeChar != CR as int && typeChar != LF as int then [typeChar] + c.input else SkipBreaks(c.input)
      decreases |c.input| + (if typeChar >= 0 then 0 else 1)
    {
      var connected := c.Connected();
      if !connected {
        return Parsed(InternalError(Disconnected, []), []);
      }
      ghost var before := c.input;
      typeChar := c.Read();
      assert before == [typeChar] + c.input;
    }
    ghost var t := c.input;
    assert ([typeChar] + t)[1..] == t;
    if typeChar == PLUS {
      var line := c.ReadLine();
      p := Parsed(Simple(line), c.input);
    } else if typeChar == COLON {
      var line := c.ReadLine();
      p := Parsed(Integer(line), c.input);
    } else if typeChar == MINUS {
      var line := c.ReadLine();
      p := Parsed(InternalError(UnknownError, line), c.input);
    } else if typeChar == DOLLAR {
      p := ReadBulk(c);
    } else if typeChar == STAR {
      p := ReadArray(c);
    } else {
      p := Parsed(InternalError(UnknownType, Decimal(typeChar)), c.input);
    }
  }

  // ----- printing changes what is printed

  /** The value after it has been printed: simple strings and integers have lost their CRLFs. */
  function AfterPrint(v: Value): Value
    decreases v, 0
  {
    match v
    case Simple(data) => Simple(RemoveCrlf(data))
    case Integer(data) => Integer(RemoveCrlf(data))
    case Array(items) => Array(AllAfterPrint(items))
    case _ => v
  }

  function AllAfterPrint(vs: seq<Value>): (ws: seq<Value>)
    ensures |ws| == |vs|
    decreases vs
  {
    if vs == [] then [] else [AfterPrint(vs[0])] + AllAfterPrint(vs[1..])
  }

  predicate HasCrlf(s: seq<Byte>) {
    |s| >= 2 && ((s[0] == CR && s[1] == LF) || HasCrlf(s[1..]))
  }

  /** One pass leaves no CRLF behind. */
  predicate Settled(v: Value) {
    match v
    case Simple(data) => !HasCrlf(RemoveCrlf(data))
    case Integer(data) => !HasCrlf(RemoveCrlf(data))
    case Array(items) => forall i :: 0 <= i < |items| ==> Settled(items[i])
    case _ => true
  }

  lemma {:induction false} RemoveCrlfShrinks(s: seq<Byte>)
    ensures |RemoveCrlf(s)| <= |s|
    ensures |RemoveCrlf(s)| == |s| <==> !HasCrlf(s)
    ensures !HasCrlf(s) ==> RemoveCrlf(s) == s
  {
    if s != [] {
      if |s| >= 2 && s[0] == CR && s[1] == LF {
        RemoveCrlfShrinks(s[2..]);
      } else {
        RemoveCrlfShrinks(s[1..]);
      }
    }
  }

  /** Each CRLF is cut out, from the left. */
  lemma {:induction false} RemoveCrlfSplits(a: seq<Byte>, b: seq<Byte>)
    requires CR !in a
    ensures RemoveCrlf(a + CRLF + b) == a + RemoveCrlf(b)
  {
    hide RemoveCrlf;
    if a == [] {
      assert a + CRLF + b == CRLF + b;
      RemoveCrlfStep(0, b);
    } else {
      var t := a[1..] + CRLF + b;
      assert a + CRLF + b == [a[0]] + t;
      RemoveCrlfStep(a[0], t);
      RemoveCrlfSplits(a[1..], b);
      assert a == [a[0]] + a[1..];
    }
  }

  lemma RemoveCrlfStep(x: Byte, t: seq<Byte>)
    requires x != CR
    ensures RemoveCrlf([x] + t) == [x] + RemoveCrlf(t)
    ensures RemoveCrlf(CRLF + t) == RemoveCrlf(t)
  {
    assert ([x] + t)[1..] == t && (CRLF + t)[2..] == t;
  }

  /** Printing a value again gives the same bytes exactly if the first printing left no CRLF behind. */
  lemma {:induction false} PrintsAgainIff(v: Value)
    requires Wire(v)
    ensures Wire(AfterPrint(v))
    ensures |Print(AfterPrint(v))| <= |Print(v)|
    ensures Print(AfterPrint(v)) == Print(v) <==> Settled(v)
    ensures |Print(AfterPrint(v))| == |Print(v)| <==> Settled(v)
    decreases v, 0
  {
    match v
    case Simple(data) => RemoveCrlfShrinks(RemoveCrlf(data));
    case Integer(data) => RemoveCrlfShrinks(RemoveCrlf(data));
    case Array(items) => AllPrintAgainIff(items);
    case _ =>
  }

  lemma {:induction false} AllPrintAgainIff(vs: seq<Value>)
    requires forall i :: 0 <= i < |vs| ==> Wire(vs[i])
    ensures forall i :: 0 <= i < |vs| ==> Wire(AllAfterPrint(vs)[i])
    ensures |PrintAll(AllAfterPrint(vs))| <= |PrintAll(vs)|
    ensures PrintAll(AllAfterPrint(vs)) == PrintAll(vs) <==> forall i :: 0 <= i < |vs| ==> Settled(vs[i])
    ensures |PrintAll(AllAfterPrint(vs))| == |PrintAll(vs)| <==> forall i :: 0 <= i < |vs| ==> Settled(vs[i])
    decreases vs
  {
    hide Print, Settled;
    if vs != [] {
      PrintsAgainIff(vs[0]);
      AllPrintAgainIff(vs[1..]);
      var ws := AllAfterPrint(vs);
      assert ws[0] == AfterPrint(vs[0]) && ws[1..] == AllAfterPrint(vs[1..]);
      assert (forall i :: 0 <= i < |vs| ==> Settled(vs[i])) <==>
             Settled(vs[0]) && forall i :: 0 <= i < |vs[1..]| ==> Settled(vs[1..][i]);
    }
  }

  /** CR CR LF LF prints as CR LF the first time and as nothing the second time. */
  lemma PrintsDifferentlyTwice()
    ensures var v := Simple([CR, CR, LF, LF]);
            Print(v) == [PLUS, CR, LF, CR, LF] && Print(AfterPrint(v)) == [PLUS, CR, LF]
  {
    var d := [CR, CR, LF, LF];
    assert d[1..] == [CR, LF, LF] && d[1..][2..] == [LF];
    assert RemoveCrlf([LF]) == [LF];
    assert RemoveCrlf(d) == [CR, LF];
    assert RemoveCrlf([CR, LF]) == [];
  }

  /** The `RESP` methods: arrays append the printing of one item after another. */
  method PrintValue(v: Value) returns (s: seq<Byte>, after: Value)
    requires Wire(v)
    ensures s == Print(v) && after == AfterPrint(v)
    decreases v
  {
    match v
    case Simple(data) =>
      after := Simple(RemoveCrlf(data));
      s := [PLUS] + after.data + CRLF;
    case Integer(data) =>
      after := Integer(RemoveCrlf(data));
      s := [COLON] + after.data + CRLF;
    case Bulk(data) =>
      s, after := [DOLLAR] + Decimal(|data|) + CRLF + data + CRLF, v;
    case NullBulk =>
      s, after := [DOLLAR] + Decimal(0) + CRLF + CRLF, v;
    case Array(items) =>
      var all, done := PrintItems(items);
      s, after := [STAR] + Decimal(|items|) + CRLF + all, Array(done);
  }

  /** The loop over the items of an array. */
  method PrintItems(items: seq<Value>) returns (s: seq<Byte>, done: seq<Value>)
    requires forall i :: 0 <= i < |items| ==> Wire(items[i])
    ensures s == PrintAll(items) && done == AllAfterPrint(items)
    decreases items
  {
    hide Print, AfterPrint, Wire;
    s, done := [], [];
    for i := 0 to |items|
      invariant s + PrintAll(items[i..]) == PrintAll(items)
      invariant done + AllAfterPrint(items[i..]) == AllAfterPrint(items)
    {
      var item, next := PrintValue(items[i]);
      assert items[i..][1..] == items[i + 1..];
      assert s + (item + PrintAll(items[i + 1..])) == s + item + PrintAll(items[i + 1..]);
      assert done + ([next] + AllAfterPrint(items[i + 1..])) == done + [next] + AllAfterPrint(items[i + 1..]);
      s, done := s + item, done + [next];
    }
    assert s + [] == s && done + [] == done;
  }
}
