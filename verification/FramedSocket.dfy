/**
  The send and receive loops of one end of a socket.  The kernel decides how many bytes each
  call moves: `readSizes` and `writeSizes` list its choices, so every schedule of short reads and
  short writes is some value of these fields.
 */
module FramedSocket {
  import opened Framing
  import opened Text

  function Min(a: nat, b: nat): nat {
    if a < b then a else b
  }

  lemma PrefixExtends(m: string, sent: nat, length: nat, n: nat)
    requires sent + n <= length <= |m|
    ensures m[..sent] + m[sent..length][..n] == m[..sent + n]
  {
    assert m[sent..length][..n] == m[sent..sent + n];
  }

  /** What the next write of `n` bytes takes: -1 for a failure. */
  function NextWrite(sizes: seq<nat>, n: nat): int {
    if sizes == [] then n else if sizes[0] == 0 then -1 else Min(sizes[0], n)
  }

  function Rest(sizes: seq<nat>): seq<nat> {
    if sizes == [] then [] else sizes[1..]
  }

  predicate IsSuffix(s: seq<nat>, t: seq<nat>) {
    |s| <= |t| && s == t[|t| - |s|..]
  }

  lemma SuffixOfSelf(s: seq<nat>)
    ensures IsSuffix(s, s)
  {
    assert s[0..] == s;
  }

  /** What is left of a schedule after a write; where nothing in it fails, the write did not. */
  lemma RestIsSuffix(s: seq<nat>, all: seq<nat>)
    requires IsSuffix(s, all)
    ensures IsSuffix(Rest(s), all)
    ensures s != [] ==> s[0] in all
  {
    if s != [] {
      assert s[0] == all[|all| - |s|];
      assert s[1..] == all[|all| - |s| + 1..];
    }
  }

  lemma HeaderNonEmpty(n: nat)
    ensures Header(n) != []
  {
  }

  class VtsDriverCommUtil {
    var sockfd: int
    var incoming: string  // what the peer sends before it closes
    var outgoing: string  // what has been written
    var readSizes: seq<nat>
    var writeSizes: seq<nat>

    constructor (sockfd: int, incoming: string, readSizes: seq<nat>, writeSizes: seq<nat>)
      ensures this.sockfd == sockfd && this.incoming == incoming && outgoing == []
      ensures this.readSizes == readSizes && this.writeSizes == writeSizes
    {
      this.sockfd, this.incoming, this.outgoing := sockfd, incoming, [];
      this.readSizes, this.writeSizes := readSizes, writeSizes;
    }

    /** read(2): some bytes, at least one unless the stream has ended. */
    method SysRead(max: nat) returns (data: string)
      requires max > 0
      modifies this`incoming, this`readSizes
      ensures old(incoming) == data + incoming
      ensures |data| <= max && (data == [] <==> old(incoming) == [])
    {
      if incoming == [] { return []; }
      var most := Min(max, |incoming|);
      var k := 1;
      if readSizes != [] {
        k := 1 + readSizes[0] % most;
        readSizes := readSizes[1..];
      }
      data := incoming[..k];
      incoming := incoming[k..];
    }

    /** write(2): takes the next count of the schedule, where zero is a failure, or everything once it is over. */
    method SysWrite(data: string) returns (n: int)
      requires data != []
      modifies this`outgoing, this`writeSizes
      ensures n == NextWrite(old(writeSizes), |data|) && writeSizes == Rest(old(writeSizes))
      ensures outgoing == old(outgoing) + if n == -1 then [] else data[..n]
    {
      n := |data|;
      if writeSizes != [] {
        n := if writeSizes[0] == 0 then -1 else Min(writeSizes[0], |data|);
        writeSizes := writeSizes[1..];
      }
      if n > 0 {
        outgoing := outgoing + data[..n];
      }
    }

    /**
      Sends a message.  The header goes out in a single write whose count is not looked at:
      `taken` says how much of it left.  The body is written in a loop.  Without a failing write
      the send succeeds.
     */
    method VtsSocketSendBytes(m: string) returns (ok: bool, ghost taken: nat)
      modifies this`outgoing, this`writeSizes
      ensures sockfd == -1 ==> !ok && outgoing == old(outgoing) && writeSizes == old(writeSizes)
      ensures taken <= |Header(|m|)| && old(outgoing) <= outgoing
      ensures ok ==> outgoing == old(outgoing) + Header(|m|)[..taken] + m[..BodyCount(|m|)]
      ensures ok ==> taken == NextWrite(old(writeSizes), |Header(|m|)|)
      ensures ok && taken == |Header(|m|)| ==> outgoing == old(outgoing) + Sent(m)
      ensures sockfd != -1 && 0 !in old(writeSizes) ==> ok
      ensures IsSuffix(writeSizes, old(writeSizes))
    {
      hide Header;
      hide IsSuffix;
      HeaderNonEmpty(|m|);
      SuffixOfSelf(writeSizes);
      taken := 0;
      if sockfd == -1 { return false, taken; }
      ghost var sizes := writeSizes;
      var n := SysWrite(Header(|m|));
      RestIsSuffix(sizes, sizes);
      if n < 0 { return false, taken; }
      taken := n;
      ghost var before := outgoing;
      var sent, length := 0, BodyCount(|m|);
      while sent < length
        invariant sent <= length <= |m|
        invariant outgoing == before + m[..sent]
        invariant IsSuffix(writeSizes, sizes)
      {
        RestIsSuffix(writeSizes, sizes);
        n := SysWrite(m[sent..length]);
        if n <= 0 { return false, taken; }
        PrefixExtends(m, sent, length, n);
        sent := sent + n;
      }
      assert taken == |Header(|m|)| ==> Header(|m|)[..taken] == Header(|m|);
      return true, taken;
    }

    /** Receives one message; a failure leaves nothing to read. */
    method VtsSocketRecvBytes() returns (r: string)
      requires sockfd != -1 ==> Receive(incoming) != Undefined
      modifies this`incoming, this`readSizes
      ensures sockfd == -1 ==> r == [] && incoming == old(incoming)
      ensures sockfd != -1 ==>
                match Receive(old(incoming))
                case Message(body, rest) => r == body && incoming == rest
                case Failed => r == [] && incoming == []
                case Refused(rest) => r == [] && incoming == rest
                case Undefined => false
    {
      hide Receive;
      hide Atoi;
      hide AtoiStops;
      hide HeaderLength;
      HowReceived(incoming);
      if sockfd == -1 { return []; }
      var header, ended := RecvHeader();
      if !ended { return []; }
      var length := Atoi(header);
      if length < -1 { return []; }  // no memory
      r := RecvBody(length);
    }

    /** Reads single bytes until a terminator, which is dropped, or until the buffer is full. */
    method RecvHeader() returns (header: string, ended: bool)
      modifies this`incoming, this`readSizes
      ensures ended <==> FillsBuffer(old(incoming)) || HeaderLength(old(incoming)) < |old(incoming)|
      ensures !ended ==> incoming == []
      ensures ended ==> header == HeaderOf(old(incoming)) && incoming == BehindHeader(old(incoming))
    {
      hide HeaderLength;
      ghost var s := incoming;
      header := [];
      var index := 0;
      while index < HEADER_LIMIT
        invariant index == |header| <= HEADER_LIMIT && index <= HeaderLength(s)
        invariant header == s[..index] && incoming == s[index..]
      {
        var b := SysRead(1);
        if b == [] { return header, false; }
        assert b[0] == s[index];
        if IsTerminator(b[0]) {
          HeaderLengthUnique(s, index);
          return header, true;
        }
        header := header + b;
        index := index + 1;
      }
      return header, true;
    }

    /** Reads a body of known length with short reads. */
    method RecvBody(length: nat) returns (r: string)
      modifies this`incoming, this`readSizes
      ensures match Split(old(incoming), length)
              case Message(body, rest) => r == body && incoming == rest
              case Failed => r == [] && incoming == []
              case Refused(_) => false
              case Undefined => false
    {
      ghost var s := incoming;
      r := [];
      while |r| < length
        invariant |r| <= length && s == r + incoming
        decreases length - |r|
      {
        var b := SysRead(length - |r|);
        if b == [] { return []; }
        r := r + b;
      }
    }

    /** A received message counts only when it is not empty and can be parsed. */
    method VtsSocketRecvMessage(parses: string -> bool) returns (ok: bool, body: string)
      requires sockfd != -1 ==> Receive(incoming) != Undefined
      modifies this`incoming, this`readSizes
      ensures ok <==>
              sockfd != -1 && Receive(old(incoming)).Message? && Receive(old(incoming)).body != [] && parses(body)
      ensures sockfd != -1 && Receive(old(incoming)).Message? ==> Message(body, incoming) == Receive(old(incoming))
    {
      if sockfd == -1 { return false, []; }
      body := VtsSocketRecvBytes();
      if |body| == 0 { return false, body; }
      ok := parses(body);
    }
  }

  /** How a receive follows from the header and what is behind it. */
  lemma HowReceived(s: string)
    ensures Receive(s) ==
            if !FillsBuffer(s) && HeaderLength(s) == |s| then Failed
            else if FillsBuffer(s) && !AtoiStops(HeaderOf(s)) then Undefined
            else Body(BehindHeader(s), Atoi(HeaderOf(s)))
  {
  }

  // ---- Two ends ---------------------------------------------------------------------------------------

  /** Every write takes at least a whole header, or all it is given. */
  predicate TakesHeaders(sizes: seq<nat>) {
    forall i :: 0 <= i < |sizes| ==> sizes[i] >= 11
  }

  /** Such a schedule neither fails nor tears the header of a message that can be received. */
  lemma HeaderTakenWhole(sizes: seq<nat>, n: nat)
    requires TakesHeaders(sizes) && n < BODY_LIMIT
    ensures 0 !in sizes && NextWrite(sizes, |Header(n)|) == |Header(n)|
  {
    ShortHeader(n);
  }

  lemma SuffixTakesHeaders(s: seq<nat>, t: seq<nat>)
    requires IsSuffix(s, t) && TakesHeaders(t)
    ensures TakesHeaders(s)
  {
    assert forall i :: 0 <= i < |s| ==> s[i] == t[|t| - |s| + i];
  }

  /** Sends a message and hands what was written to the other end; `still` says whether all headers left whole. */
  method SendOne(sender: VtsDriverCommUtil, receiver: VtsDriverCommUtil, m: string,
                 ghost pending: seq<string>, ghost whole: bool)
    returns (ok: bool, ghost still: bool)
    requires sender != receiver && sender.sockfd != -1 && |m| < BODY_LIMIT
    requires whole ==> receiver.incoming == Stream(pending)
    modifies sender`outgoing, sender`writeSizes, receiver`incoming
    ensures still ==> whole
    ensures ok && still ==> receiver.incoming == Stream(pending + [m])
    ensures TakesHeaders(old(sender.writeSizes)) ==> ok && still == whole && TakesHeaders(sender.writeSizes)
  {
    hide Header;
    var before := |sender.outgoing|;
    ghost var taken;
    ghost var was, sizes := sender.outgoing, sender.writeSizes;
    ok, taken := sender.VtsSocketSendBytes(m);
    still := whole && taken == |Header(|m|)|;
    receiver.incoming := receiver.incoming + sender.outgoing[before..];
    if TakesHeaders(sizes) {
      HeaderTakenWhole(sizes, |m|);
      SuffixTakesHeaders(sender.writeSizes, sizes);
    }
    if ok && still {
      assert (was + Sent(m))[before..] == Sent(m);
      StreamAppend(pending, m);
    }
  }

  /** Receives the next message, unless what arrives leaves the defined behaviour. */
  method ReceiveOne(receiver: VtsDriverCommUtil, parses: string -> bool, ghost pending: seq<string>, ghost whole: bool)
    returns (ok: bool, body: string)
    requires receiver.sockfd != -1 && pending != [] && Sendable(pending[0]) && parses(pending[0])
    requires whole ==> receiver.incoming == Stream(pending)
    modifies receiver`incoming, receiver`readSizes
    ensures whole ==> ok && body == pending[0] && receiver.incoming == Stream(pending[1..])
  {
    if whole {
      RoundTripIff(pending[0], Stream(pending[1..]));
    }
    if Receive(receiver.incoming) == Undefined { return false, []; }
    ok, body := receiver.VtsSocketRecvMessage(parses);
  }

  /**
    Sends a list of messages over one end and receives them at the other, sends and receives
    interleaved in any order the schedule gives.  Whatever the kernel does with reads and body
    writes, if every send succeeds and every header leaves in one piece, exactly the list
    arrives; it does so whenever each write takes at least a header's length or all it is given.
   */
  method Transfer(sender: VtsDriverCommUtil, receiver: VtsDriverCommUtil, ms: seq<string>, parses: string -> bool,
                  schedule: seq<bool>)
    returns (sent: bool, ghost whole: bool, got: seq<string>)
    requires sender != receiver && sender.sockfd != -1 && receiver.sockfd != -1
    requires forall i :: 0 <= i < |ms| ==> Sendable(ms[i]) && parses(ms[i])
    requires receiver.incoming == []
    modifies sender, receiver
    ensures sent && whole ==> got == ms && receiver.incoming == []
    ensures TakesHeaders(old(sender.writeSizes)) ==> got == ms && receiver.incoming == []
  {
    hide Receive;
    hide Stream;
    hide TakesHeaders;
    got, whole := [], true;
    var n, turn := 0, 0;
    EmptyStream(ms);
    while |got| < |ms|
      invariant sender.sockfd != -1 && receiver.sockfd != -1
      invariant |got| <= n <= |ms|
      invariant whole ==> got == ms[..|got|] && receiver.incoming == Stream(ms[|got|..n])
      invariant TakesHeaders(old(sender.writeSizes)) ==> whole && TakesHeaders(sender.writeSizes)
      decreases 2 * |ms| - n - |got|
    {
      var sending := n < |ms| && (n == |got| || (turn < |schedule| && schedule[turn]));
      turn := turn + 1;
      if sending {
        var ok;
        ghost var pending := ms[|got|..n];
        ok, whole := SendOne(sender, receiver, ms[n], pending, whole);
        if !ok { return false, whole, got; }
        assert pending + [ms[n]] == ms[|got|..n + 1];
        n := n + 1;
      } else {
        ghost var pending := ms[|got|..n];
        assert pending[0] == ms[|got|] && pending[1..] == ms[|got| + 1..n];
        var ok, body := ReceiveOne(receiver, parses, pending, whole);
        if !ok { return true, whole, got; }
        got := got + [body];
      }
    }
    sent := true;
    assert ms[..|ms|] == ms && ms[|ms|..|ms|] == [];
  }

  lemma EmptyStream(ms: seq<string>)
    ensures Stream([]) == [] && ms[0..0] == [] && ms[..0] == []
  {
  }

  lemma {:induction false} StreamAppend(ms: seq<string>, m: string)
    ensures Stream(ms + [m]) == Stream(ms) + Sent(m)
  {
    if ms == [] {
      assert ms + [m] == [m] && Stream([m]) == Sent(m) + Stream([]);
    } else {
      assert (ms + [m])[1..] == ms[1..] + [m];
      StreamAppend(ms[1..], m);
    }
  }
}
