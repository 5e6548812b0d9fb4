/**
  Length-prefixed messages: a decimal byte count, a newline, and the body.  This module says
  what each end does with a byte stream; FramedSocket holds the loops that do it.
 */
module Framing {
  import opened Text

  const HEADER_LIMIT: nat := 128
  const INT_LIMIT: nat := 0x8000_0000

  /** Bodies are received into a buffer of one byte more than their length, computed as a signed 32-bit integer. */
  const BODY_LIMIT: nat := INT_LIMIT - 1

  // ---- The C++ end -----------------------------------------------------------------------------

  function Header(n: nat): string {
    Decimal(n) + "\n"
  }

  /** Body bytes the send loop writes: the length is kept in a signed 32-bit integer. */
  function BodyCount(n: nat): nat {
    var wrapped := n % (2 * INT_LIMIT);
    if wrapped < INT_LIMIT then wrapped else 0
  }

  /** The bytes of one message on the wire. */
  function Sent(m: string): string {
    Header(|m|) + m[..BodyCount(|m|)]
  }

  /** The bytes of a short message, written out. */
  lemma SentShort()
    ensures Sent("hello") == "5\nhello"
  {
    assert "hello"[..5] == "hello";
    assert Decimal(5) == "5";
  }

  datatype Received =
    | Message(body: string, rest: string)
    | Failed                 // the peer closed too early; nothing is left
    | Refused(rest: string)  // no memory for a negative length
    | Undefined              // the original leaves the defined behaviour of C++

  predicate IsTerminator(c: char) {
    c == '\n' || c == '\r'
  }

  /** Number of bytes before the first terminator, or all of them. */
  function HeaderLength(s: string): (k: nat)
    ensures k <= |s|
    ensures forall i :: 0 <= i < k ==> !IsTerminator(s[i])
    ensures k < |s| ==> IsTerminator(s[k])
  {
    if s == [] || IsTerminator(s[0]) then 0 else 1 + HeaderLength(s[1..])
  }

  lemma HeaderLengthUnique(s: string, k: nat)
    requires k < |s| && IsTerminator(s[k])
    requires forall i :: 0 <= i < k ==> !IsTerminator(s[i])
    ensures HeaderLength(s) == k
  {
    assert !(HeaderLength(s) < k);
  }

  /** A header that fills the buffer is not terminated there. */
  predicate FillsBuffer(s: string) {
    HeaderLength(s) >= HEADER_LIMIT
  }

  /** What the header buffer holds. */
  function HeaderOf(s: string): string {
    if FillsBuffer(s) then s[..HEADER_LIMIT] else s[..HeaderLength(s)]
  }

  /** The bytes behind the header. */
  function BehindHeader(s: string): string
    requires FillsBuffer(s) || HeaderLength(s) < |s|
  {
    if FillsBuffer(s) then s[HEADER_LIMIT..] else s[HeaderLength(s) + 1..]
  }

  /** What receiving one message makes of the bytes that arrive until the peer closes. */
  function Receive(s: string): Received {
    if !FillsBuffer(s) && HeaderLength(s) == |s| then Failed
    else if FillsBuffer(s) && !AtoiStops(HeaderOf(s)) then Undefined
    else Body(BehindHeader(s), Atoi(HeaderOf(s)))
  }

  /** What becomes of the announced length: too large for an int, overflowing by one, negative, or fine. */
  function Body(tail: string, n: int): Received {
    if n >= BODY_LIMIT || n < -(INT_LIMIT as int) || n == -1 then Undefined
    else if n < 0 then Refused(tail)
    else Split(tail, n)
  }

  /** Cuts a body of `n` bytes off the bytes behind the header. */
  function Split(tail: string, n: nat): Received {
    if |tail| < n then Failed else Message(tail[..n], tail[n..])
  }

  lemma ReceiveHeader(n: nat, tail: string)
    ensures HeaderLength(Header(n) + tail) == |Decimal(n)|
    ensures (Header(n) + tail)[..|Decimal(n)|] == Decimal(n)
    ensures (Header(n) + tail)[|Decimal(n)| + 1..] == tail
  {
    var s, k := Header(n) + tail, |Decimal(n)|;
    assert forall i :: 0 <= i < k ==> s[i] == Decimal(n)[i];
    assert s[k] == '\n';
    HeaderLengthUnique(s, k);
  }

  lemma ShortHeader(n: nat)
    requires n < 10_000_000_000
    ensures |Decimal(n)| <= 10
  {
    assert Power10(10) == 10_000_000_000 by {
      assert Power10(5) == 100_000;
      assert Power10(7) == 10_000_000;
    }
    DecimalLength(n, 10, Power10(10));
  }

  /** A header of digits that fills the buffer does not make `atoi` stop inside it. */
  lemma LongHeader(n: nat, tail: string)
    requires FillsBuffer(Header(n) + tail)
    ensures !AtoiStops(HeaderOf(Header(n) + tail))
  {
    hide Decimal;
    ReceiveHeader(n, tail);
    var h := HeaderOf(Header(n) + tail);
    assert h == Decimal(n)[..HEADER_LIMIT];
    DigitPrefixOfDigits(h);
  }

  /** Receiving a well-formed header leads to the length it encodes. */
  lemma ReceiveAfterHeader(n: nat, tail: string)
    ensures Receive(Header(n) + tail) == if n < BODY_LIMIT then Split(tail, n) else Undefined
  {
    ReceiveHeader(n, tail);
    AtoiOfDecimal(n);
    if n < BODY_LIMIT {
      ShortHeader(n);
    } else if FillsBuffer(Header(n) + tail) {
      LongHeader(n, tail);
    }
  }

  /** What a header with any number and either terminator leads to. */
  lemma ReceiveSigned(n: int, c: char, tail: string)
    requires c == '\n' || c == '\r'
    ensures Receive(SignedDecimal(n) + [c] + tail) ==
            if 0 <= n < 0x7fff_ffff then
              if |tail| < n then Failed else Message(tail[..n], tail[n..])
            else if -0x8000_0000 <= n <= -2 then Refused(tail)
            else Undefined
  {
    hide Decimal;
    hide SignedDecimal;
    hide Atoi;
    hide AtoiStops;
    var h := SignedDecimal(n);
    var s, k := h + [c] + tail, |h|;
    assert forall i :: 0 <= i < k ==> s[i] == h[i] && !IsTerminator(s[i]);
    assert s[k] == c;
    HeaderLengthUnique(s, k);
    AtoiOfSigned(n);
    assert s[..k] == h && s[k + 1..] == tail;
    if FillsBuffer(s) {
      assert HeaderOf(s) == h[..HEADER_LIMIT];
      SignedFillsBuffer(n);
      SignedLength(n);
    }
  }

  /** The first bytes of a signed number are all used by `atoi`. */
  lemma SignedFillsBuffer(n: int)
    requires |SignedDecimal(n)| >= HEADER_LIMIT
    ensures !AtoiStops(SignedDecimal(n)[..HEADER_LIMIT])
  {
    hide Decimal;
    var h, digits := SignedDecimal(n), Decimal(if n < 0 then -n else n);
    var t := h[..HEADER_LIMIT];
    if n < 0 {
      assert t[0] == '-' && t[1..] == digits[..HEADER_LIMIT - 1];
      DigitPrefixOfDigits(t[1..]);
    } else {
      DigitPrefixOfDigits(t);
    }
  }

  /** Numbers with so many digits do not fit an int. */
  lemma SignedLength(n: int)
    requires |SignedDecimal(n)| >= HEADER_LIMIT
    ensures n >= 0x7fff_ffff || n < -0x8000_0000
  {
    var m := if n < 0 then -n else n;
    if m < 10_000_000_000 {
      ShortHeader(m);
    }
  }

  /**
    A message comes back exactly as sent, with every later byte left in place, if and only
    if its length and one more fit a signed 32-bit integer.
   */
  lemma RoundTripIff(m: string, rest: string)
    ensures Receive(Sent(m) + rest) == Message(m, rest) <==> |m| < BODY_LIMIT
  {
    hide Receive;
    hide Header;
    var body := m[..BodyCount(|m|)];
    assert Sent(m) + rest == Header(|m|) + (body + rest);
    ReceiveAfterHeader(|m|, body + rest);
    if |m| < BODY_LIMIT {
      assert body == m;
      assert (m + rest)[..|m|] == m && (m + rest)[|m|..] == rest;
    }
  }

  /** A header of which only `taken` bytes left never leads to the message that followed it. */
  lemma TornHeaderIff(m: string, rest: string, taken: nat)
    requires |m| < BODY_LIMIT && taken <= |Header(|m|)|
    ensures Receive(Header(|m|)[..taken] + m + rest) == Message(m, rest) <==> taken == |Header(|m|)|
  {
    hide Receive;
    hide Decimal;
    var header := Header(|m|);
    var s := header[..taken] + m + rest;
    if taken == |header| {
      assert m[..BodyCount(|m|)] == m && header[..taken] == header;
      assert s == Sent(m) + rest;
      RoundTripIff(m, rest);
    } else {
      MessageBehindHeader(s);
      ShortHeader(|m|);
      assert taken > 0 ==> s[taken - 1] == header[taken - 1] == Decimal(|m|)[taken - 1];
      assert |s| - |m| - |rest| == taken;
    }
  }

  /** Whatever precedes a received body ends in a terminator or fills the header buffer. */
  lemma MessageBehindHeader(s: string)
    ensures match Receive(s)
            case Message(body, rest) =>
              var cut := |s| - |body| - |rest|;
              0 < cut <= |s| && (IsTerminator(s[cut - 1]) || cut == HEADER_LIMIT)
            case Failed => true
            case Refused(_) => true
            case Undefined => true
  {
    hide Atoi;
    hide AtoiStops;
    hide HeaderOf;
    hide HeaderLength;
    if FillsBuffer(s) || HeaderLength(s) < |s| {
      BodyCuts(BehindHeader(s), Atoi(HeaderOf(s)));
    }
  }

  lemma BodyCuts(tail: string, n: int)
    ensures match Body(tail, n)
            case Message(body, rest) => |body| + |rest| == |tail|
            case Failed => true
            case Refused(_) => true
            case Undefined => true
  {
  }

  // ---- Streams of messages -----------------------------------------------------------------------

  predicate Sendable(m: string) {
    0 < |m| < BODY_LIMIT
  }

  function Stream(ms: seq<string>): string {
    if ms == [] then [] else Sent(ms[0]) + Stream(ms[1..])
  }

  /** Receives until the stream is used up or a receive fails. */
  function ReceiveAll(s: string): (r: seq<string>)
    decreases |s|
  {
    match Receive(s)
    case Message(body, rest) => if |rest| < |s| then [body] + ReceiveAll(rest) else [body]
    case Failed => []
    case Refused(_) => []
    case Undefined => []
  }

  /** Every list of messages is recovered in order, with no byte crossing from one into another. */
  lemma {:induction false} StreamRoundTrip(ms: seq<string>)
    requires forall i :: 0 <= i < |ms| ==> |ms[i]| < BODY_LIMIT
    ensures ReceiveAll(Stream(ms)) == ms
  {
    if ms != [] {
      RoundTripIff(ms[0], Stream(ms[1..]));
      StreamRoundTrip(ms[1..]);
      assert |Sent(ms[0])| > 0;
    }
  }

  // ---- The Python end ----------------------------------------------------------------------------

  datatype PyReceived = PyMessage(data: string, rest: string) | PyError

  /** Number of bytes before the first newline, or all of them. */
  function LineLength(s: string): (k: nat)
    ensures k <= |s|
    ensures forall i :: 0 <= i < k ==> s[i] != '\n'
    ensures k < |s| ==> s[k] == '\n'
  {
    if s == [] || s[0] == '\n' then 0 else 1 + LineLength(s[1..])
  }

  function SignOf(s: string): string {
    if s != [] && (s[0] == '+' || s[0] == '-') then s[..1] else []
  }

  /** Python's `int` on a byte string: an optional sign and digits between spaces. */
  function PyInt(line: string): (int, bool) {
    var s := TrimRight(SkipSpaces(line));
    var sign := SignOf(s);
    var digits := s[|sign|..];
    if digits == [] || DigitPrefix(digits) != digits then (0, false)
    else if sign == "-" then (-(Value(digits) as int), true)
    else (Value(digits), true)
  }

  function PySent(m: string): string {
    Decimal(|m|) + "\n" + m
  }

  /** `readline` and `read(length)`; a negative length reads to the end. */
  function PyReceive(s: string): PyReceived {
    var k := LineLength(s);
    var tail := if k < |s| then s[k + 1..] else [];
    var (n, ok) := if k == 0 then (0, true) else PyInt(s[..k]);
    if !ok then PyError
    else
      var count := if n < 0 || n > |tail| then |tail| else n;
      PyMessage(tail[..count], tail[count..])
  }

  lemma PyIntOfDecimal(n: nat)
    ensures PyInt(Decimal(n)) == (n, true)
  {
    hide Decimal;
    hide Value;
    var s := Decimal(n);
    assert IsDigit(s[0]) && IsDigit(s[|s| - 1]);
    DigitPrefixOfDigits(s);
    ValueOfDecimal(n);
    assert s[0..] == s;
  }

  /** The host takes as many bytes as the header says, or what there is when the stream ends before. */
  lemma PyReceiveCounts(n: nat, tail: string)
    ensures PyReceive(Header(n) + tail)
         == if |tail| < n then PyMessage(tail, "") else PyMessage(tail[..n], tail[n..])
  {
    hide PyInt;
    hide Decimal;
    hide LineLength;
    var s, k := Header(n) + tail, |Decimal(n)|;
    assert forall i :: 0 <= i < k ==> s[i] == Decimal(n)[i];
    assert s[k] == '\n';
    assert !(LineLength(s) < k);
    assert s[..k] == Decimal(n) && s[k + 1..] == tail;
    PyIntOfDecimal(n);
    assert tail[..|tail|] == tail && tail[|tail|..] == "";
  }

  lemma PyReceiveAfterHeader(m: string, rest: string)
    ensures PyReceive(Header(|m|) + (m + rest)) == PyMessage(m, rest)
  {
    hide PyReceive;
    PyReceiveCounts(|m|, m + rest);
    assert (m + rest)[..|m|] == m && (m + rest)[|m|..] == rest;
  }

  /** Both ends write the same bytes and read each other's messages. */
  lemma EndsInteroperate(m: string, rest: string)
    requires |m| < BODY_LIMIT
    ensures PySent(m) == Sent(m)
    ensures Receive(PySent(m) + rest) == Message(m, rest)
    ensures PyReceive(Sent(m) + rest) == PyMessage(m, rest)
  {
    hide Receive;
    hide PyReceive;
    assert m[..BodyCount(|m|)] == m;
    assert PySent(m) == Sent(m);
    RoundTripIff(m, rest);
    assert Sent(m) + rest == Header(|m|) + (m + rest);
    PyReceiveAfterHeader(m, rest);
  }
}
