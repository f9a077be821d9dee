/**
 The other side of the Redis connection: replies as the server writes them, errors and null strings
 included, and what the client makes of whole streams of them. The formats are the "Simple Strings",
 "Errors", "Integers", "Bulk Strings" and "Arrays" of the Redis serialization protocol.
 */
module Server {
  import opened Bytes
  import opened Resp

  datatype Reply =
    | Status(text: seq<Byte>)
    | Failure(text: seq<Byte>)
    | Number(text: seq<Byte>)
    | Text(data: seq<Byte>)
    | Null
    | List(items: seq<Reply>)

  /** The bytes of a reply: + - : $ * and CRLF, with the null string as $-1. */
  function Serve(r: Reply): seq<Byte>
    decreases r, 0
  {
    match r
    case Status(text) => [0x2B] + (text + [13, 10])
    case Failure(text) => [0x2D] + (text + [13, 10])
    case Number(text) => [0x3A] + (text + [13, 10])
    case Text(data) => [0x24] + (Decimal(|data|) + [13, 10] + data + [13, 10])
    case Null => [0x24] + ([0x2D, 0x31] + [13, 10])
    case List(items) => [0x2A] + (Decimal(|items|) + [13, 10] + ServeAll(items))
  }

  function ServeAll(rs: seq<Reply>): seq<Byte>
    decreases rs
  {
    if rs == [] then [] else Serve(rs[0]) + ServeAll(rs[1..])
  }

  /** What the protocol demands: no CR in a line. Bulk strings may hold anything. */
  predicate Proper(r: Reply) {
    match r
    case Status(text) => CR !in text
    case Failure(text) => CR !in text
    case Number(text) => CR !in text
    case List(items) => forall i :: 0 <= i < |items| ==> Proper(items[i])
    case _ => true
  }

  /** What the client is to make of a reply: an error is an internal error, a string ends at its first NUL. */
  function Meaning(r: Reply): Value
    decreases r, 0
  {
    match r
    case Status(text) => Simple(text)
    case Failure(text) => InternalError(UnknownError, text)
    case Number(text) => Integer(text)
    case Text(data) => Bulk(CString(data))
    case Null => NullBulk
    case List(items) => Array(Meanings(items))
  }

  function Meanings(rs: seq<Reply>): (vs: seq<Value>)
    ensures |vs| == |rs|
    decreases rs
  {
    if rs == [] then [] else [Meaning(rs[0])] + Meanings(rs[1..])
  }

  /** What is left unread: the CRLF of a bulk string. */
  function Left(r: Reply): seq<Byte> {
    match r
    case Text(_) => [13, 10]
    case List(items) => if items == [] then [] else Left(items[|items| - 1])
    case _ => []
  }

  function LeftAfter(breaks: seq<Byte>, rs: seq<Reply>): seq<Byte> {
    if rs == [] then breaks else Left(rs[|rs| - 1])
  }

  lemma {:induction false} LeftIsBreaks(r: Reply)
    ensures AllBreaks(Left(r)) && |Left(r)| <= 2
  {
    if r.List? && r.items != [] {
      LeftIsBreaks(r.items[|r.items| - 1]);
    }
  }

  lemma LineIsUnderstood(kind: Byte, text: seq<Byte>, breaks: seq<Byte>, rest: seq<Byte>)
    requires CR !in text && AllBreaks(breaks) && (kind == 0x2B || kind == 0x2D || kind == 0x3A)
    ensures ParseType(breaks + ([kind] + (text + [13, 10])) + rest) ==
            Parsed(if kind == 0x2B then Simple(text) else if kind == 0x3A then Integer(text) else InternalError(UnknownError, text), rest)
  {
    hide Line, AfterLine, ToInt, Decimal, SkipBreaks, ParseBulk, ParseItems;
    ParseBody(breaks, kind, text + CRLF, rest);
    LineOf(text, rest);
    assert ([kind] + (text + CRLF + rest))[1..] == text + CRLF + rest;
  }

  lemma TextIsUnderstood(data: seq<Byte>, breaks: seq<Byte>, rest: seq<Byte>)
    requires AllBreaks(breaks)
    ensures ParseType(breaks + Serve(Text(data)) + rest) == Parsed(Bulk(CString(data)), [13, 10] + rest)
  {
    hide Line, AfterLine, ToInt, Decimal, SkipBreaks, ParseBulk, ParseItems, CString;
    var body := Decimal(|data|) + CRLF + data + CRLF;
    ParseBody(breaks, DOLLAR, body, rest);
    BulkRoundTrip(data, rest);
    assert ([DOLLAR] + (body + rest))[1..] == body + rest;
  }

  lemma NullIsUnderstood(breaks: seq<Byte>, rest: seq<Byte>)
    requires AllBreaks(breaks)
    ensures ParseType(breaks + Serve(Null) + rest) == Parsed(NullBulk, rest)
  {
    hide Line, AfterLine, ToInt, Decimal, SkipBreaks, ParseItems;
    var minusOne: seq<Byte> := [0x2D, 0x31];
    ParseBody(breaks, DOLLAR, minusOne + CRLF, rest);
    LineOf(minusOne, rest);
    MinusOne();
    assert ([DOLLAR] + (minusOne + CRLF + rest))[1..] == minusOne + CRLF + rest;
  }

  lemma MinusOne()
    ensures ToInt([0x2D, 0x31]) == -1
  {
    var s: seq<Byte> := [0x2D, 0x31];
    assert s[1..] == [0x31] && [0x31][1..] == [];
    assert ReadDigits([0x31], 0) == ReadDigits([], 1) == 1;
  }

  /** Behind any line breaks and before any continuation, every proper reply is understood. */
  lemma {:induction false} ReplyIsUnderstood(r: Reply, breaks: seq<Byte>, rest: seq<Byte>)
    requires Proper(r) && AllBreaks(breaks)
    ensures ParseType(breaks + Serve(r) + rest) == Parsed(Meaning(r), Left(r) + rest)
    decreases r, 1
  {
    hide ParseType, CString, Decimal, AllBreaks;
    assert [] + rest == rest;
    match r
    case Status(text) => LineIsUnderstood(0x2B, text, breaks, rest);
    case Failure(text) => LineIsUnderstood(0x2D, text, breaks, rest);
    case Number(text) => LineIsUnderstood(0x3A, text, breaks, rest);
    case Text(data) => TextIsUnderstood(data, breaks, rest);
    case Null => NullIsUnderstood(breaks, rest);
    case List(items) =>
      ListStream(items, breaks, rest);
      RepliesAreUnderstood(items, [], rest);
  }

  lemma ListStream(items: seq<Reply>, breaks: seq<Byte>, rest: seq<Byte>)
    requires AllBreaks(breaks)
    ensures ParseType(breaks + Serve(List(items)) + rest) == AsArray(ParseItems(|items|, [] + ServeAll(items) + rest))
    ensures AllBreaks([])
  {
    hide Line, AfterLine, ToInt, Decimal, SkipBreaks, ParseItems, ParseType, ServeAll;
    var count, all := Decimal(|items|) + CRLF, ServeAll(items);
    ParseBody(breaks, STAR, count + all, rest);
    assert count + all + rest == count + (all + rest);
    CountLine(|items|, all + rest);
    ArrayByCount(breaks + Serve(List(items)) + rest, count + all + rest, |items|);
    assert [] + all + rest == all + rest;
  }

  lemma {:induction false} RepliesAreUnderstood(rs: seq<Reply>, breaks: seq<Byte>, rest: seq<Byte>)
    requires AllBreaks(breaks) && forall i :: 0 <= i < |rs| ==> Proper(rs[i])
    ensures ParseItems(|rs|, breaks + ServeAll(rs) + rest) == Items(Meanings(rs), LeftAfter(breaks, rs) + rest)
    decreases rs, 0
  {
    hide ParseType, Left, Serve, Meaning, Proper, AllBreaks;
    if rs == [] {
      assert breaks + [] + rest == breaks + rest;
    } else {
      var r, tail := rs[0], ServeAll(rs[1..]) + rest;
      assert breaks + ServeAll(rs) + rest == breaks + Serve(r) + tail;
      ReplyIsUnderstood(r, breaks, tail);
      LeftIsBreaks(r);
      RepliesAreUnderstood(rs[1..], Left(r), rest);
      assert Left(r) + tail == Left(r) + ServeAll(rs[1..]) + rest;
    }
  }

  /**
   For every list of proper replies, errors and null strings among them and nested in lists, as many
   parses give their meanings in order; then at most one CRLF is left and the next parse reports the
   disconnection.
   */
  lemma ServerStreamStaysInStep(rs: seq<Reply>)
    requires forall i :: 0 <= i < |rs| ==> Proper(rs[i])
    ensures var p := ParseItems(|rs|, ServeAll(rs));
            && p.Items? && p.values == Meanings(rs) && |p.rest| <= 2
            && ParseType(p.rest) == Parsed(InternalError(Disconnected, []), [])
  {
    hide ParseItems, Serve, Meanings, Left;
    RepliesAreUnderstood(rs, [], []);
    assert [] + ServeAll(rs) + [] == ServeAll(rs);
    var left := LeftAfter([], rs);
    assert left + [] == left;
    if rs != [] {
      LeftIsBreaks(rs[|rs| - 1]);
    }
    OnlyBreaks(left);
  }

  /** Any other first byte is reported by its number, and only that byte is taken. */
  lemma UnknownTypeIsReported(kind: Byte, breaks: seq<Byte>, rest: seq<Byte>)
    requires AllBreaks(breaks) && kind !in {0x2B, 0x2D, 0x3A, 0x24, 0x2A, 13, 10}
    ensures ParseType(breaks + [kind] + rest) == Parsed(InternalError(UnknownType, Decimal(kind)), rest)
  {
    hide Line, AfterLine, ToInt, Decimal, SkipBreaks, ParseBulk, ParseItems;
    assert [kind] + [] == [kind] && [] + rest == rest;
    ParseBody(breaks, kind, [], rest);
    assert ([kind] + ([] + rest))[1..] == rest;
  }

  /** An array with a negative count is an empty one. */
  lemma NegativeArrayIsEmpty(breaks: seq<Byte>, rest: seq<Byte>)
    requires AllBreaks(breaks)
    ensures ParseType(breaks + ([0x2A] + ([0x2D, 0x31] + [13, 10])) + rest) == Parsed(Array([]), rest)
  {
    hide Line, AfterLine, ToInt, Decimal, SkipBreaks, ParseBulk;
    var minusOne: seq<Byte> := [0x2D, 0x31];
    ParseBody(breaks, STAR, minusOne + CRLF, rest);
    LineOf(minusOne, rest);
    MinusOne();
    assert ([STAR] + (minusOne + CRLF + rest))[1..] == minusOne + CRLF + rest;
  }
}
