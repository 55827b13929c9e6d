/** CastV2 frames: a four-byte length in network order, then a CastMessage; how
    sendMessage builds them and how the main loop takes them off the stream. */
module Frames {
  import opened Bits
  import opened Varint
  import opened Wire
  import opened Protobuf
  import opened Messages
  import opened MessageRoundTrip
  import opened Utf8
  import opened CastChannel
  import Sizes
  import WireFormat

  /** The loop refuses longer messages. */
  const MAX_MESSAGE := 65536

  /** The four bytes of htonl(n) in memory. */
  function NetworkOrder(n: uint32): (s: seq<byte>)
    ensures |s| == 4
  {
    [n / 0x100 / 0x100 / 0x100, n / 0x100 / 0x100 % 0x100, n / 0x100 % 0x100, n % 0x100]
  }

  /** ntohl of four bytes in memory. */
  function HostOrder(s: seq<byte>): uint32
    requires |s| == 4
  {
    var a: int, b: int, c: int, d: int := s[0], s[1], s[2], s[3];
    ((a * 0x100 + b) * 0x100 + c) * 0x100 + d
  }

  lemma HostInvertsNetwork(n: uint32)
    ensures HostOrder(NetworkOrder(n)) == n
  {
  }

  /** The header for a size_t: narrowed to 32 bits, in network order. */
  function Header(size: nat): seq<byte> {
    NetworkOrder(size % TWO_32)
  }

  /** The buffer that sendMessage hands to write. */
  function Frame(m: Message, destinationFirst: bool): seq<byte> {
    Header(SizeContent(m)) + Content(m, destinationFirst).bytes
  }

  /** Why the loop ended. */
  datatype Stop = BadMessage | ConnectionReset | StrayLength

  /** The messages taken, in order, the bytes left unread and the reason. */
  datatype Session = Session(messages: seq<Message>, unread: seq<byte>, stop: Stop)

  function Prepend(messages: seq<Message>, s: Session): Session {
    s.(messages := messages + s.messages)
  }

  /** handleMessage returns false: the message has a payload, whose type is
      INVALID_REQUEST. */
  predicate Fails(m: Message, invalid: seq<byte> -> bool) {
    m.payloadUtf8 != [] && invalid(m.payloadUtf8)
  }

  /** The loop over a stream that ends after s, where invalid tells the payloads whose
      type is INVALID_REQUEST.  An empty frame is handled, but reading zero bytes
      marks the connection as closed. */
  function Receive(s: seq<byte>, invalid: seq<byte> -> bool): Session
    decreases |s|
  {
    if |s| < 4 then Session([], [], BadMessage)
    else
      var n, rest := HostOrder(s[..4]), s[4..];
      if n > MAX_MESSAGE then Session([], rest, BadMessage)
      else if |rest| < n then Session([], [], BadMessage)
      else
        var p := Parse(rest[..n]);
        match p.verdict
        case Rejected => Session([], rest[n..], ConnectionReset)
        case Strayed => Session([], rest[n..], StrayLength)
        case Accepted =>
          if Fails(p.message, invalid) then Session([p.message], rest[n..], ConnectionReset)
          else if n == 0 then Session([p.message], rest, ConnectionReset)
          else Prepend([p.message], Receive(rest[n..], invalid))
  }

  /** The bytes of s that are sent when the socket reports so many, or an error. */
  function SentPart(s: seq<byte>, sent: int): (part: seq<byte>)
    ensures part <= s && (0 <= sent <= |s| ==> |part| == sent) && (sent < 0 ==> part == [])
  {
    s[..if sent < 0 then 0 else if sent > |s| then |s| else sent]
  }

  /** The stream read and written by the loop; read(n) hands over the next n bytes,
      or fewer at the end, and write is told what the socket reported. */
  class Connection {
    var input: seq<byte>
    var output: seq<byte>
    var eof: bool

    constructor (input: seq<byte>)
      ensures this.input == input && output == [] && !eof
    {
      this.input, output, eof := input, [], false;
    }

    method Read(n: nat) returns (s: seq<byte>)
      modifies this
      ensures var k := if n <= |old(input)| then n else |old(input)|;
              s == old(input)[..k] && input == old(input)[k..] && eof == (old(eof) || k == 0)
      ensures output == old(output)
    {
      var k := if n <= |input| then n else |input|;
      s, input := input[..k], input[k..];
      if k == 0 {
        eof := true;
      }
    }

    method Write(s: seq<byte>, sent: int) returns (ok: bool)
      modifies this
      ensures ok == (sent == |s|) && output == old(output) + SentPart(s, sent)
      ensures input == old(input) && eof == old(eof)
    {
      output := output + SentPart(s, sent);
      return sent == |s|;
    }
  }

  /** The frame reading of loop, with the parse of handleMessage. */
  method ReceiveLoop(c: Connection, invalid: seq<byte> -> bool) returns (messages: seq<Message>, stop: Stop)
    requires !c.eof
    modifies c
    ensures Session(messages, c.input, stop) == Receive(old(c.input), invalid)
    ensures c.output == old(c.output)
  {
    messages := [];
    ghost var all := Receive(c.input, invalid);
    while true
      invariant !c.eof && c.output == old(c.output)
      invariant Prepend(messages, Receive(c.input, invalid)) == all
      decreases |c.input|
    {
      ghost var s := c.input;
      var lengthBuffer := c.Read(4);
      if |lengthBuffer| != 4 {
        assert c.input == [];
        return messages, BadMessage;
      }
      var msgLength := HostOrder(lengthBuffer);
      if msgLength > MAX_MESSAGE {
        return messages, BadMessage;
      }
      var response := c.Read(msgLength);
      if |response| < msgLength {
        assert c.input == [];
        return messages, BadMessage;
      }
      assert response == s[4..][..msgLength] && c.input == s[4..][msgLength..];
      var message := new CastMessage();
      var verdict := message.Parse(response);
      if verdict == Rejected {
        return messages, ConnectionReset;
      }
      if verdict == Strayed {
        return messages, StrayLength;
      }
      messages := messages + [message.Value()];
      if Fails(message.Value(), invalid) {
        return messages, ConnectionReset;
      }
      if c.eof {
        return messages, ConnectionReset;
      }
    }
  }

  // ---- sendMessage ----

  /** "sender-0" and "receiver-0". */
  const SENDER: seq<byte> := [115, 101, 110, 100, 101, 114, 45, 48]
  const RECEIVER: seq<byte> := [114, 101, 99, 101, 105, 118, 101, 114, 45, 48]

  /** The message that sendMessage fills in. */
  function Outgoing(dest: seq<byte>, ns: seq<byte>, message: seq<byte>): Message {
    Message(0, SENDER, if dest == [] then RECEIVER else dest, ns, 0, message, [])
  }

  method Compose(dest: seq<byte>, ns: seq<byte>, message: seq<byte>) returns (msg: CastMessage)
    ensures fresh(msg) && fresh(msg.coder)
    ensures msg.Value() == Outgoing(dest, ns, message)
  {
    msg := new CastMessage();
    msg.namespace := ns;
    msg.sourceId := SENDER;
    msg.destinationId := if dest == [] then RECEIVER else dest;
    msg.payloadUtf8 := message;
  }

  /** The header and the serialized message, handed to write if serializing
      succeeds. */
  method WriteFrame(c: Connection, msg: CastMessage, destinationFirst: bool, sent: int) returns (ok: bool)
    requires Storable(msg.Value())
    modifies c, msg.coder
    ensures var m := old(msg.Value());
            var serialized, frame := Content(m, destinationFirst).ok, Frame(m, destinationFirst);
            && ok == (serialized && sent == |frame|)
            && c.output == old(c.output) + (if serialized then SentPart(frame, sent) else [])
    ensures c.input == old(c.input) && c.eof == old(c.eof)
  {
    var size := msg.Size();
    var buffer := new Buffer();
    buffer.Append(Header(size));
    assert buffer.bytes == Header(size);
    ok := msg.Serialize(buffer, destinationFirst);
    if ok {
      ok := c.Write(buffer.bytes, sent);
    }
  }

  /** The loop takes the bytes f as the message m, unless that is an INVALID_REQUEST. */
  ghost predicate Arrives(f: seq<byte>, m: Message) {
    forall rest, invalid: seq<byte> -> bool ::
      !(m.payloadUtf8 != [] && invalid(m.payloadUtf8)) ==> Receive(f + rest, invalid) == Prepend([m], Receive(rest, invalid))
  }

  /** sendMessage: what is sent of the frame; and if NUL-free text is sent whole,
      within the limit, it arrives as a message from "sender-0" to dest, or to
      "receiver-0", in the namespace ns with the payload message. */
  method SendMessage(c: Connection, dest: seq<byte>, ns: seq<byte>, message: seq<byte>,
                     destinationFirst: bool, sent: int) returns (ok: bool)
    requires Storable(Outgoing(dest, ns, message))
    modifies c
    ensures var m := Outgoing(dest, ns, message);
            var serialized, frame := Content(m, destinationFirst).ok, Frame(m, destinationFirst);
            && ok == (serialized && sent == |frame|)
            && c.output == old(c.output) + (if serialized then SentPart(frame, sent) else [])
    ensures ok && Plain(dest) && Plain(ns) && Plain(message) && |c.output| - |old(c.output)| <= 65540 ==>
            Arrives(c.output[|old(c.output)|..],
                    Message(0, [115, 101, 110, 100, 101, 114, 45, 48],
                            if dest == [] then [114, 101, 99, 101, 105, 118, 101, 114, 45, 48] else dest,
                            ns, 0, message, []))
    ensures c.input == old(c.input) && c.eof == old(c.eof)
  {
    var msg := Compose(dest, ns, message);
    ok := WriteFrame(c, msg, destinationFirst, sent);
    if ok && Plain(dest) && Plain(ns) && Plain(message) && |c.output| - |old(c.output)| <= 65540 {
      assert c.output[|old(c.output)|..] == Frame(Outgoing(dest, ns, message), destinationFirst);
      FrameArrives(dest, ns, message, destinationFirst);
    }
  }

  // ---- frames come back ----

  /** A message and the evaluation order its serialization happened to use. */
  datatype Sending = Sending(message: Message, destinationFirst: bool)

  predicate Deliverable(m: Message) {
    AllText(m) && SizeContent(m) <= MAX_MESSAGE
  }

  /** The concatenated buffers. */
  function Stream(sends: seq<Sending>): seq<byte> {
    Flatten(FramesOf(sends))
  }

  function FramesOf(sends: seq<Sending>): seq<seq<byte>> {
    seq(|sends|, i requires 0 <= i < |sends| => Frame(sends[i].message, sends[i].destinationFirst))
  }

  function ReceivedAll(sends: seq<Sending>): seq<Message> {
    seq(|sends|, i requires 0 <= i < |sends| => Received(sends[i].message))
  }

  /** The header of a frame states the length of its body exactly when isutf8
      passes all four strings. */
  lemma HeaderIsLength(m: Message, destinationFirst: bool)
    requires SizeContent(m) < TWO_32
    ensures HostOrder(Header(SizeContent(m))) == |Content(m, destinationFirst).bytes| <==> AllText(m)
  {
    HeaderIsSize(SizeContent(m));
    Sizes.SizeAgreement(m, destinationFirst);
  }

  lemma HeaderIsSize(n: nat)
    requires n < TWO_32
    ensures HostOrder(Header(n)) == n && Header(n) == NetworkOrder(n)
  {
    HostInvertsNetwork(n);
  }

  /** Taking one well-formed frame with a body that parses. */
  lemma RawFrame(n: nat, body: seq<byte>, rest: seq<byte>, m: Message, invalid: seq<byte> -> bool)
    requires 0 < n == |body| <= MAX_MESSAGE && Parse(body) == Parsed(Accepted, m, ERR_OK)
    ensures Receive(NetworkOrder(n) + body + rest, invalid)
         == if Fails(m, invalid) then Session([m], rest, ConnectionReset)
            else Prepend([m], Receive(rest, invalid))
  {
    var head := NetworkOrder(n);
    HostInvertsNetwork(n);
    var s := head + body + rest;
    assert s[..4] == head && s[4..] == body + rest;
    assert (body + rest)[..n] == body && (body + rest)[n..] == rest;
  }

  /** A frame whose length is over the limit ends the loop. */
  lemma LongFrame(n: nat, body: seq<byte>, rest: seq<byte>, invalid: seq<byte> -> bool)
    requires MAX_MESSAGE < n < TWO_32
    ensures Receive(NetworkOrder(n) + body + rest, invalid).messages == []
  {
    HostInvertsNetwork(n);
    assert (NetworkOrder(n) + body + rest)[..4] == NetworkOrder(n);
  }

  /** One frame is taken as its message, which ends the loop if it is an
      INVALID_REQUEST. */
  lemma OneFrame(m: Message, destinationFirst: bool, rest: seq<byte>, invalid: seq<byte> -> bool)
    requires Deliverable(m)
    ensures Receive(Frame(m, destinationFirst) + rest, invalid)
         == if Fails(Received(m), invalid) then Session([Received(m)], rest, ConnectionReset)
            else Prepend([Received(m)], Receive(rest, invalid))
  {
    var n, body := SizeContent(m), Content(m, destinationFirst).bytes;
    assert 4 <= n == |body| by {
      Sizes.SizeAgreement(m, destinationFirst);
    }
    HeaderIsSize(n);
    SerializeThenParse(m, destinationFirst);
    RawFrame(n, body, rest, Received(m), invalid);
  }

  /** The loop takes the bytes f as the message m, whatever follows. */
  ghost predicate Delivers(f: seq<byte>, m: Message, invalid: seq<byte> -> bool) {
    forall rest :: Receive(f + rest, invalid) == Prepend([m], Receive(rest, invalid))
  }

  lemma PrependOne(messages: seq<Message>, s: Session)
    requires messages != []
    ensures Prepend([messages[0]], Prepend(messages[1..], s)) == Prepend(messages, s)
  {
    assert [messages[0]] + (messages[1..] + s.messages) == messages + s.messages;
  }

  lemma {:induction false} DeliverAll(frames: seq<seq<byte>>, messages: seq<Message>, rest: seq<byte>,
                                      invalid: seq<byte> -> bool)
    requires |frames| == |messages|
    requires forall i :: 0 <= i < |frames| ==> Delivers(frames[i], messages[i], invalid)
    ensures Receive(Flatten(frames) + rest, invalid) == Prepend(messages, Receive(rest, invalid))
  {
    if frames == [] {
      assert Flatten(frames) + rest == rest;
    } else {
      var f, tail := frames[0], Flatten(frames[1..]);
      DeliverAll(frames[1..], messages[1..], rest, invalid);
      Assoc(f, tail, rest);
      PrependOne(messages, Receive(rest, invalid));
      assert Delivers(f, messages[0], invalid);
    }
  }

  /** Every message can be framed and none is an INVALID_REQUEST. */
  predicate AllGood(sends: seq<Sending>, invalid: seq<byte> -> bool) {
    forall i :: 0 <= i < |sends| ==>
      Deliverable(sends[i].message) && !Fails(Received(sends[i].message), invalid)
  }

  /** Any list of frames is taken off the stream whole and in order, and the loop
      then goes on with what follows. */
  lemma StreamThenRest(sends: seq<Sending>, rest: seq<byte>, invalid: seq<byte> -> bool)
    requires AllGood(sends, invalid)
    ensures Receive(Stream(sends) + rest, invalid) == Prepend(ReceivedAll(sends), Receive(rest, invalid))
  {
    forall i, more | 0 <= i < |sends|
      ensures Receive(FramesOf(sends)[i] + more, invalid)
           == Prepend([ReceivedAll(sends)[i]], Receive(more, invalid))
    {
      OneFrame(sends[i].message, sends[i].destinationFirst, more, invalid);
    }
    DeliverAll(FramesOf(sends), ReceivedAll(sends), rest, invalid);
  }

  /** The first INVALID_REQUEST is taken too, and then the loop ends. */
  lemma InvalidStops(sends: seq<Sending>, last: Sending, rest: seq<byte>, invalid: seq<byte> -> bool)
    requires AllGood(sends, invalid)
    requires Deliverable(last.message) && Fails(Received(last.message), invalid)
    ensures Receive(Stream(sends) + (Frame(last.message, last.destinationFirst) + rest), invalid)
         == Session(ReceivedAll(sends) + [Received(last.message)], rest, ConnectionReset)
  {
    OneFrame(last.message, last.destinationFirst, rest, invalid);
    StreamThenRest(sends, Frame(last.message, last.destinationFirst) + rest, invalid);
  }

  /** Nothing but the frames: every byte is used, and messages that the round trip
      leaves unchanged arrive as they were. */
  lemma StreamArrives(sends: seq<Sending>, invalid: seq<byte> -> bool)
    requires AllGood(sends, invalid)
    ensures Receive(Stream(sends), invalid) == Session(ReceivedAll(sends), [], BadMessage)
    ensures (forall i :: 0 <= i < |sends| ==> Received(sends[i].message) == sends[i].message) ==>
            Receive(Stream(sends), invalid).messages
            == seq(|sends|, i requires 0 <= i < |sends| => sends[i].message)
  {
    StreamThenRest(sends, [], invalid);
    assert Stream(sends) + [] == Stream(sends);
  }

  /** sendMessage has no length check of its own: a frame is taken exactly when its
      message is within the loop's limit. */
  lemma TakenExactly(m: Message, destinationFirst: bool, rest: seq<byte>, invalid: seq<byte> -> bool)
    requires AllText(m) && SizeContent(m) < TWO_32
    ensures Receive(Frame(m, destinationFirst) + rest, invalid).messages != [] <==> SizeContent(m) <= MAX_MESSAGE
  {
    if SizeContent(m) <= MAX_MESSAGE {
      OneFrame(m, destinationFirst, rest, invalid);
    } else {
      HeaderIsSize(SizeContent(m));
      LongFrame(SizeContent(m), Content(m, destinationFirst).bytes, rest, invalid);
    }
  }

  // ---- what sendMessage sends ----

  lemma {:induction false} AsciiText(s: seq<byte>)
    requires forall i :: 0 <= i < |s| ==> 0 < s[i] < 128
    ensures IsText(s) && 0 !in s && CString(s) == s
  {
    CStringWhole(s);
    if s != [] {
      AsciiText(s[1..]);
    }
  }

  lemma ConstantNames()
    ensures IsText(SENDER) && 0 !in SENDER && CString(SENDER) == SENDER
    ensures IsText(RECEIVER) && 0 !in RECEIVER && CString(RECEIVER) == RECEIVER && RECEIVER != []
  {
    AsciiText(SENDER);
    AsciiText(RECEIVER);
  }

  lemma OutgoingUnchanged(m: Message, dest: seq<byte>, ns: seq<byte>, message: seq<byte>)
    requires m == Outgoing(dest, ns, message)
    requires Plain(dest) && Plain(ns) && Plain(message)
    ensures AllText(m) && Received(m) == m
  {
    ConstantNames();
    CStringWhole(dest);
    CStringWhole(ns);
    CStringWhole(message);
    UnchangedExactly(m);
  }

  /** Messages built by sendMessage arrive unchanged when the caller's strings are
      NUL-free text and the frame is within the limit. */
  lemma FrameArrives(dest: seq<byte>, ns: seq<byte>, message: seq<byte>, destinationFirst: bool)
    requires Plain(dest) && Plain(ns) && Plain(message)
    requires |Frame(Outgoing(dest, ns, message), destinationFirst)| <= 65540
    ensures Arrives(Frame(Outgoing(dest, ns, message), destinationFirst), Outgoing(dest, ns, message))
  {
    var m := Outgoing(dest, ns, message);
    OutgoingUnchanged(m, dest, ns, message);
    Sizes.SizeAgreement(m, destinationFirst);
    forall rest, invalid | !Fails(m, invalid)
      ensures Receive(Frame(m, destinationFirst) + rest, invalid) == Prepend([m], Receive(rest, invalid))
    {
      OneFrame(m, destinationFirst, rest, invalid);
    }
  }

  /** The bytes of such a frame: the length in four digits of base 256, the most
      significant first, and the message. */
  lemma FrameBytes(dest: seq<byte>, ns: seq<byte>, message: seq<byte>, destinationFirst: bool)
    requires Plain(dest) && Plain(ns) && Plain(message)
    requires |Frame(Outgoing(dest, ns, message), destinationFirst)| < 0x1_0000_0000
    ensures var m := Message(0, [115, 101, 110, 100, 101, 114, 45, 48],
                             if dest == [] then [114, 101, 99, 101, 105, 118, 101, 114, 45, 48] else dest,
                             ns, 0, message, []);
            var body := WireFormat.MessageBytes(m, destinationFirst);
            var n := |body|;
            && n < 0x1_0000_0000
            && Frame(Outgoing(dest, ns, message), destinationFirst)
               == [n / 0x100_0000, n / 0x1_0000 % 0x100, n / 0x100 % 0x100, n % 0x100] + body
  {
    var m := Outgoing(dest, ns, message);
    ConstantNames();
    OutgoingUnchanged(m, dest, ns, message);
    WireFormat.PlainWritten(m, destinationFirst);
    Sizes.SizeAgreement(m, destinationFirst);
    HeaderDigits(SizeContent(m));
  }

  lemma HeaderDigits(n: nat)
    requires n < 0x1_0000_0000
    ensures Header(n) == [n / 0x100_0000, n / 0x1_0000 % 0x100, n / 0x100 % 0x100, n % 0x100]
  {
  }

  // ---- every way the loop can go on or end ----

  /** The first frame of a stream, in the numbers of the format. */
  lemma FirstFrame(n: nat, body: seq<byte>, rest: seq<byte>, invalid: seq<byte> -> bool)
    requires n < 0x1_0000_0000
    ensures var head := [n / 0x100_0000, n / 0x1_0000 % 0x100, n / 0x100 % 0x100, n % 0x100];
            && (n > 65536 ==> Receive(head + body + rest, invalid) == Session([], body + rest, BadMessage))
            && (|body| < n <= 65536 ==> Receive(head + body, invalid) == Session([], [], BadMessage))
            && (0 < n == |body| <= 65536 ==>
                  Receive(head + body + rest, invalid)
                  == if Parse(body).verdict == Rejected then Session([], rest, ConnectionReset)
                     else if Parse(body).verdict == Strayed then Session([], rest, StrayLength)
                     else if Parse(body).message.payloadUtf8 != [] && invalid(Parse(body).message.payloadUtf8)
                     then Session([Parse(body).message], rest, ConnectionReset)
                     else Prepend([Parse(body).message], Receive(rest, invalid)))
            && (n == 0 ==> Receive(head + body, invalid)
                           == Session([Message(0, [], [], [], 0, [], [])], body, ConnectionReset))
  {
    HeaderIsSize(n);
    HeaderDigits(n);
    var head := Header(n);
    assert (head + body)[..4] == head && (head + body)[4..] == body;
    var s := head + body + rest;
    assert s[..4] == head && s[4..] == body + rest;
    if n == |body| {
      assert (body + rest)[..n] == body && (body + rest)[n..] == rest;
    }
    assert body[..0] == [] && body[0..] == body;
  }

  /** Fewer than four bytes end the loop, and nothing is left. */
  lemma ShortHeader(s: seq<byte>, invalid: seq<byte> -> bool)
    requires |s| < 4
    ensures Receive(s, invalid) == Session([], [], BadMessage)
  {
  }

  /** A message that parse refuses ends the loop after the ones before it, with the
      rest unread. */
  lemma RefusedStops(sends: seq<Sending>, n: nat, body: seq<byte>, rest: seq<byte>, invalid: seq<byte> -> bool)
    requires AllGood(sends, invalid)
    requires 0 < n == |body| <= 65536 && Parse(body).verdict == Rejected
    ensures var head := [n / 0x100_0000, n / 0x1_0000 % 0x100, n / 0x100 % 0x100, n % 0x100];
            Receive(Stream(sends) + (head + body + rest), invalid)
            == Session(ReceivedAll(sends), rest, ConnectionReset)
  {
    FirstFrame(n, body, rest, invalid);
    var head := [n / 0x100_0000, n / 0x1_0000 % 0x100, n / 0x100 % 0x100, n % 0x100];
    StreamThenRest(sends, head + body + rest, invalid);
  }
}
