/** The sizes announced before writing, against the bytes written. */
module Sizes {
  import opened Bits
  import opened Varint
  import opened Wire
  import opened Protobuf
  import opened Messages
  import opened MessageRoundTrip
  import opened Utf8
  import ZigZag

  /** serialize(id, pout) of a message whose content is w: key, size, content. */
  function Nested(id: nat, m: Message, destinationFirst: bool): Written {
    var w := Content(m, destinationFirst);
    Written(w.ok, EncodeVarint(Key(id, DELIMITED)) + EncodeVarint(SizeContent(m)) + w.bytes, w.err)
  }

  /** size(uid). */
  function SizeNested(id: nat, m: Message): nat {
    SizeKey(id, DELIMITED) + SizeLengthDelimited(SizeContent(m))
  }

  lemma VarSize(field: nat, u: uint32)
    ensures |VarBytes(field, u)| == SizeVar(field, u) >= 2
  {
    SizeIsLength(Key(field, VARINT));
    SizeIsLength(ZigZag.Code(32, u));
  }

  lemma ClsSize(field: nat, body: seq<byte>)
    ensures |ClsBytes(field, body)| == SizeCls(field, |body|)
    ensures body != [] ==> SizeCls(field, |body|) > |body|
  {
    SizeIsLength(Key(field, DELIMITED));
    SizeIsLength(|body|);
  }

  /** A string takes its announced size, unless isutf8 refuses it: then it takes
      nothing although the announced size is positive. */
  lemma StrSize(field: nat, s: seq<byte>)
    ensures IsTextField(s) ==> |StrBytes(field, s)| == SizeStr(field, s)
    ensures !IsTextField(s) ==> |StrBytes(field, s)| == 0 < SizeStr(field, s)
  {
    ClsSize(field, CString(s));
  }

  lemma AddressSize(m: Message, destinationFirst: bool)
    ensures |AddressBytes(m, destinationFirst)|
         == |StrBytes(DESTINATION_ID, m.destinationId)| + |StrBytes(NAMESPACE, m.namespace)|
  {
  }

  /** How much is written, whichever operand stops the writing. */
  lemma ContentLength(m: Message, destinationFirst: bool)
    ensures var src, d, n, p := IsTextField(m.sourceId), IsTextField(m.destinationId),
                                IsTextField(m.namespace), IsTextField(m.payloadUtf8);
            |Content(m, destinationFirst).bytes|
            == |VarBytes(PROTOCOL_VERSION, m.protocolVersion)| + |StrBytes(SOURCE_ID, m.sourceId)|
             + (if src then |AddressBytes(m, destinationFirst)| else 0)
             + (if src && (d || n) then |VarBytes(PAYLOAD_TYPE, m.payloadType)|
                                        + |StrBytes(PAYLOAD_UTF8, m.payloadUtf8)| else 0)
             + (if src && (d || n) && p then |ClsBytes(PAYLOAD_BINARY, m.payloadBinary)| else 0)
  {
  }

  /** The announced size is the number of bytes written exactly when all four
      strings are text; otherwise fewer are written. */
  lemma SizeAgreement(m: Message, destinationFirst: bool)
    ensures |Content(m, destinationFirst).bytes| <= SizeContent(m)
    ensures |Content(m, destinationFirst).bytes| == SizeContent(m) <==> AllText(m)
    ensures SizeContent(m) >= 4
  {
    ContentLength(m, destinationFirst);
    VarSize(PROTOCOL_VERSION, m.protocolVersion);
    StrSize(SOURCE_ID, m.sourceId);
    AddressSize(m, destinationFirst);
    StrSize(DESTINATION_ID, m.destinationId);
    StrSize(NAMESPACE, m.namespace);
    VarSize(PAYLOAD_TYPE, m.payloadType);
    StrSize(PAYLOAD_UTF8, m.payloadUtf8);
    ClsSize(PAYLOAD_BINARY, m.payloadBinary);
  }

  /** The size of a storable message does not wrap in a size_t. */
  lemma ContentFits(m: Message)
    requires Storable(m)
    ensures SizeContent(m) < TWO_64
  {
    StrFits(SOURCE_ID, m.sourceId);
    StrFits(DESTINATION_ID, m.destinationId);
    StrFits(NAMESPACE, m.namespace);
    StrFits(PAYLOAD_UTF8, m.payloadUtf8);
    ClsFits(PAYLOAD_BINARY, |m.payloadBinary|);
    VarFits(PROTOCOL_VERSION, m.protocolVersion);
    VarFits(PAYLOAD_TYPE, m.payloadType);
  }

  lemma KeyFits(field: nat, wire: nat)
    requires wire < 8
    ensures SizeKey(field, wire) <= 5
  {
    WordSize(32, Key(field, wire));
  }

  lemma VarFits(field: nat, u: uint32)
    ensures SizeVar(field, u) <= 10
  {
    KeyFits(field, VARINT);
    WordSize(32, ZigZag.Code(32, u));
  }

  lemma ClsFits(field: nat, size: nat)
    requires size < TWO_64
    ensures SizeCls(field, size) <= size + 15
  {
    KeyFits(field, DELIMITED);
    WordSize(64, size);
  }

  lemma StrFits(field: nat, s: seq<byte>)
    requires |s| < TWO_64
    ensures SizeStr(field, s) <= |s| + 15
  {
    ClsFits(field, |CString(s)|);
  }

  /** The nested form takes size(uid) bytes and is read back, by get_key and
      get_length_delimited, as exactly the bytes of out_content. */
  lemma NestedReadsBack(id: nat, m: Message, destinationFirst: bool, rest: seq<byte>)
    requires AllText(m) && id < TWO_29 && SizeContent(m) < TWO_31
    ensures var bytes, key := Nested(id, m, destinationFirst).bytes, EncodeVarint(Key(id, DELIMITED));
            && |bytes| == SizeNested(id, m)
            && TakeKey(bytes + rest) == Taken(KeyPair(id, DELIMITED), |key|)
            && TakeDelimited((bytes + rest)[|key|..])
               == Taken(Span(Content(m, destinationFirst).bytes), |bytes| - |key|)
  {
    var key := EncodeVarint(Key(id, DELIMITED));
    var body := Content(m, destinationFirst).bytes;
    var prefix := EncodeVarint(|body|);
    SizeAgreement(m, destinationFirst);
    SizeIsLength(Key(id, DELIMITED));
    SizeIsLength(|body|);
    NestedShape(key, prefix, body, rest);
    KeyRoundTrip(id, DELIMITED, Key(id, DELIMITED), prefix + body + rest);
    DelimitedRoundTrip(body, rest);
  }

  lemma NestedShape(key: seq<byte>, prefix: seq<byte>, body: seq<byte>, rest: seq<byte>)
    ensures key + prefix + body + rest == key + (prefix + body + rest)
    ensures (key + prefix + body + rest)[|key|..] == prefix + body + rest
  {
  }

  // ---- inputs that show the divergences ----

  lemma SmallContent(m: Message, destinationFirst: bool)
    requires |m.sourceId| + |m.destinationId| + |m.namespace| + |m.payloadUtf8| + |m.payloadBinary| < 1000
    ensures |Content(m, destinationFirst).bytes| < TWO_31
  {
    SizeAgreement(m, destinationFirst);
    StrFits(SOURCE_ID, m.sourceId);
    StrFits(DESTINATION_ID, m.destinationId);
    StrFits(NAMESPACE, m.namespace);
    StrFits(PAYLOAD_UTF8, m.payloadUtf8);
    ClsFits(PAYLOAD_BINARY, |m.payloadBinary|);
    VarFits(PROTOCOL_VERSION, m.protocolVersion);
    VarFits(PAYLOAD_TYPE, m.payloadType);
  }

  /** A binary payload type, 1, comes back as 2, which is no payload type. */
  lemma BinaryReadsAsTwo(destinationFirst: bool)
    ensures var m := EMPTY.(payloadType := 1);
            && Content(m, destinationFirst).ok
            && Parse(Content(m, destinationFirst).bytes) == Parsed(Accepted, m.(payloadType := 2), ERR_OK)
  {
    var m := EMPTY.(payloadType := 1);
    SmallContent(m, destinationFirst);
    SerializeThenParse(m, destinationFirst);
  }

  /** A destination with a two-byte character is dropped though serialize succeeds,
      and the announced size is larger than what is written. */
  lemma AccentDropped(destinationFirst: bool)
    ensures var m := EMPTY.(destinationId := [0xC3, 0xA9], namespace := [0x6E]);
            && Content(m, destinationFirst).ok
            && Parse(Content(m, destinationFirst).bytes) == Parsed(Accepted, m.(destinationId := []), ERR_OK)
            && |Content(m, destinationFirst).bytes| < SizeContent(m)
  {
    var m := EMPTY.(destinationId := [0xC3, 0xA9], namespace := [0x6E]);
    TwoByteRefused(m.destinationId);
    PlainKept(m.namespace);
    SmallContent(m, destinationFirst);
    SizeAgreement(m, destinationFirst);
    SerializeThenParse(m, destinationFirst);
  }

  lemma TwoByteRefused(s: seq<byte>)
    requires s == [0xC3, 0xA9]
    ensures !IsTextField(s)
  {
    assert s[1..] == [0xA9];
    CStringWhole(s);
  }

  lemma PlainKept(s: seq<byte>)
    requires s == [0x6E]
    ensures IsTextField(s) && Kept(s) == s
  {
    assert s[1..] == [] && Scan(0, s[1..]);
    CStringWhole(s);
  }
}
