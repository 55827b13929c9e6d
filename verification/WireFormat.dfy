/** CastMessage on the wire, in the numbers of the format: the bytes of every message
    that is written, and what a single record means when it is parsed. */
module WireFormat {
  import opened Bits
  import opened Varint
  import opened Wire
  import opened Messages
  import opened Grammar
  import opened MessageRoundTrip
  import opened Protobuf
  import opened Utf8
  import Sizes
  import ZigZag

  // ---- written ----

  /** A string under the key byte tag; an empty one is not written. */
  function Tagged(tag: byte, s: seq<byte>): seq<byte> {
    if s == [] then [] else [tag] + EncodeVarint(|s|) + s
  }

  /** The zigzag code of an enum's 32 bits. */
  function EnumCode(u: uint32): uint32 {
    if u < 0x8000_0000 then 2 * u else 2 * (0x1_0000_0000 - u) - 1
  }

  /** The pieces in their order, the destination before or after the namespace. */
  function Arrange(version: seq<byte>, source: seq<byte>, destination: seq<byte>, namespace: seq<byte>,
                   kind: seq<byte>, text: seq<byte>, binary: seq<byte>, destinationFirst: bool): seq<byte> {
    [0x08] + version + source
    + (if destinationFirst then destination + namespace else namespace + destination)
    + [0x28] + kind + text + binary
  }

  function MessageBytes(m: Message, destinationFirst: bool): seq<byte> {
    Arrange(EncodeVarint(EnumCode(m.protocolVersion)),
            Tagged(0x12, m.sourceId), Tagged(0x1A, m.destinationId), Tagged(0x22, m.namespace),
            EncodeVarint(EnumCode(m.payloadType)),
            Tagged(0x32, m.payloadUtf8), Tagged(0x3A, m.payloadBinary), destinationFirst)
  }

  lemma TagByte(field: nat, wire: nat, tag: byte)
    requires tag == 8 * field + wire < 0x80 && wire < 8
    ensures EncodeVarint(Key(field, wire)) == [tag]
  {
  }

  lemma TaggedBody(field: nat, tag: byte, body: seq<byte>)
    requires tag == 8 * field + 2 < 0x80
    ensures ClsBytes(field, body) == Tagged(tag, body)
  {
    TagByte(field, 2, tag);
    Assoc([tag], EncodeVarint(|body|), body);
  }

  lemma TaggedStr(field: nat, tag: byte, s: seq<byte>)
    requires tag == 8 * field + 2 < 0x80
    ensures StrBytes(field, s) == Tagged(tag, Kept(s))
  {
    TaggedBody(field, tag, Kept(s));
  }

  lemma TaggedEnum(field: nat, tag: byte, u: uint32)
    requires tag == 8 * field < 0x80
    ensures VarBytes(field, u) == [tag] + EncodeVarint(EnumCode(u))
  {
    TagByte(field, 0, tag);
  }

  /** What is written for a message: its strings up to their first NUL, a refused
      address string left out. */
  function Written(m: Message): Message {
    m.(sourceId := Kept(m.sourceId), destinationId := Kept(m.destinationId),
       namespace := Kept(m.namespace), payloadUtf8 := Kept(m.payloadUtf8))
  }

  /** serialize writes exactly these bytes. */
  lemma SerializedBytes(m: Message, destinationFirst: bool)
    requires Content(m, destinationFirst).ok
    ensures Content(m, destinationFirst).bytes == MessageBytes(Written(m), destinationFirst)
  {
    TaggedEnum(1, 0x08, m.protocolVersion);
    TaggedStr(2, 0x12, m.sourceId);
    TaggedStr(3, 0x1A, m.destinationId);
    TaggedStr(4, 0x22, m.namespace);
    TaggedEnum(5, 0x28, m.payloadType);
    TaggedStr(6, 0x32, m.payloadUtf8);
    TaggedBody(7, 0x3A, m.payloadBinary);
    var head := [0x08] + EncodeVarint(EnumCode(m.protocolVersion))
              + Tagged(0x12, Kept(m.sourceId)) + AddressBytes(m, destinationFirst);
    Assoc(head, [0x28], EncodeVarint(EnumCode(m.payloadType)));
  }

  lemma PlainWhole(s: seq<byte>)
    requires Plain(s)
    ensures Kept(s) == s && IsTextField(s)
  {
    CStringWhole(s);
  }

  lemma EmptyPlain()
    ensures Plain([])
  {
  }

  lemma PlainWritten(m: Message, destinationFirst: bool)
    requires Plain(m.sourceId) && Plain(m.destinationId) && Plain(m.namespace) && Plain(m.payloadUtf8)
    ensures Written(m) == m && AllText(m) && Serializable(m)
    ensures Content(m, destinationFirst).ok
    ensures Content(m, destinationFirst).bytes == MessageBytes(m, destinationFirst)
  {
    PlainWhole(m.sourceId);
    PlainWhole(m.destinationId);
    PlainWhole(m.namespace);
    PlainWhole(m.payloadUtf8);
    SerializeThenParse(m, destinationFirst);
    SerializedBytes(m, destinationFirst);
  }

  // ---- one field ----

  /** The message that has c in the field under the key byte tag and nothing else. */
  function Only(tag: byte, c: seq<byte>): Message {
    Message(0, if tag == 0x12 then c else [], if tag == 0x1A then c else [],
            if tag == 0x22 then c else [], 0,
            if tag == 0x32 then c else [], if tag == 0x3A then c else [])
  }

  /** A message with one short string. */
  lemma OneFieldWritten(tag: byte, c: seq<byte>, destinationFirst: bool)
    requires tag in {0x12, 0x1A, 0x22, 0x32, 0x3A} && 0 < |c| < 0x80
    requires tag == 0x3A || Plain(c)
    ensures Content(Only(tag, c), destinationFirst).bytes
         == if tag <= 0x22 then [0x08, 0, tag, |c|] + c + [0x28, 0]
            else [0x08, 0, 0x28, 0, tag, |c|] + c
  {
    EmptyPlain();
    PlainWritten(Only(tag, c), destinationFirst);
    SmallBytes(|c|);
    OneFieldShape(tag, c, destinationFirst);
  }

  lemma OneFieldShape(tag: byte, c: seq<byte>, destinationFirst: bool)
    requires tag in {0x12, 0x1A, 0x22, 0x32, 0x3A} && 0 < |c| < 0x80 && EncodeVarint(|c|) == [|c|]
    ensures MessageBytes(Only(tag, c), destinationFirst)
         == if tag <= 0x22 then [0x08, 0, tag, |c|] + c + [0x28, 0]
            else [0x08, 0, 0x28, 0, tag, |c|] + c
  {
    var t := Tagged(tag, c);
    OnlyPieces(tag, c, t, destinationFirst);
    OneOf(tag, t, destinationFirst);
    Unpack(tag, |c|, c);
  }

  lemma Unpack(tag: byte, n: byte, c: seq<byte>)
    ensures [0x08, 0] + ([tag] + [n] + c) + [0x28, 0] == [0x08, 0, tag, n] + c + [0x28, 0]
    ensures [0x08, 0, 0x28, 0] + ([tag] + [n] + c) == [0x08, 0, 0x28, 0, tag, n] + c
  {
  }

  lemma OnlyPieces(tag: byte, c: seq<byte>, t: seq<byte>, destinationFirst: bool)
    requires tag in {0x12, 0x1A, 0x22, 0x32, 0x3A} && c != [] && t == Tagged(tag, c)
    ensures MessageBytes(Only(tag, c), destinationFirst)
         == Arrange([0], if tag == 0x12 then t else [], if tag == 0x1A then t else [],
                    if tag == 0x22 then t else [], [0],
                    if tag == 0x32 then t else [], if tag == 0x3A then t else [], destinationFirst)
  {
  }

  /** Only one of the five pieces is there. */
  lemma OneOf(tag: byte, t: seq<byte>, destinationFirst: bool)
    requires tag in {0x12, 0x1A, 0x22, 0x32, 0x3A}
    ensures Arrange([0], if tag == 0x12 then t else [], if tag == 0x1A then t else [],
                    if tag == 0x22 then t else [], [0],
                    if tag == 0x32 then t else [], if tag == 0x3A then t else [], destinationFirst)
         == if tag <= 0x22 then [0x08, 0] + t + [0x28, 0] else [0x08, 0, 0x28, 0] + t
  {
  }

  /** Only one key byte and one record, as the parser sees it. */
  lemma OneRecordParsed(r: Raw)
    requires Handled(r) && |Bytes(r)| < 0x8000_0000
    ensures Parse(Bytes(r)) == Parsed(Accepted, Overlay(Message(0, [], [], [], 0, [], []), [r]), 0)
  {
    assert [r][1..] == [];
    assert Concat([r]) == Bytes(r) + [] == Bytes(r);
    ParsedIsFold([r]);
    FoldIsOverlay(EMPTY, [r]);
  }

  lemma LastOfOne(f: nat, r: Raw)
    ensures LastOfField(f, [r])
         == if !Meaning(r).Fixed64Record? && Meaning(r).field == f then Some(Meaning(r)) else None
  {
    LastOfCons(f, [r]);
    assert [r][1..] == [];
  }

  lemma TagWord(tag: byte)
    requires tag < 0x80
    ensures Word(32, [tag]) && KeyField([tag]) == tag / 8 && KeyWire([tag]) == tag % 8
  {
    assert [tag][1..] == [];
    assert Base128([tag]) == tag;
  }

  /** A record under one of the five string keys sets that field to its body, text or
      not, and no other. */
  lemma StringRecord(tag: byte, c: seq<byte>)
    requires tag in {0x12, 0x1A, 0x22, 0x32, 0x3A} && |c| < 0x7FFF_0000
    ensures Parse([tag] + EncodeVarint(|c|) + c) == Parsed(Accepted, Only(tag, c), 0)
  {
    var r := RawBody([tag], EncodeVarint(|c|), c);
    StringHandled(tag, c, r);
    Assoc([tag], EncodeVarint(|c|), c);
    OneRecordParsed(r);
    OnlyOverlay(tag, c, r);
  }

  lemma StringHandled(tag: byte, c: seq<byte>, r: Raw)
    requires tag in {0x12, 0x1A, 0x22, 0x32, 0x3A} && |c| < 0x7FFF_0000
    requires r == RawBody([tag], EncodeVarint(|c|), c)
    ensures Handled(r) && |Bytes(r)| < 0x8000_0000 && Meaning(r) == BodyRecord(tag / 8, c)
  {
    TagWord(tag);
    WrittenWord(32, |c|);
  }

  lemma OnlyOverlay(tag: byte, c: seq<byte>, r: Raw)
    requires tag in {0x12, 0x1A, 0x22, 0x32, 0x3A}
    requires r.RawBody? && Meaning(r) == BodyRecord(tag / 8, c)
    ensures Overlay(Message(0, [], [], [], 0, [], []), [r]) == Only(tag, c)
  {
    forall f
      ensures LastOfField(f, [r]) == if tag / 8 == f then Some(Meaning(r)) else None
    {
      LastOfOne(f, r);
    }
  }

  /** A varint under one of the two enum keys sets that enum, modulo 2^32, and no
      other field: the code that was written is not decoded. */
  lemma EnumRecord(tag: byte, v: nat)
    requires tag in {0x08, 0x28} && v < 0x1_0000_0000_0000_0000
    ensures Parse([tag] + EncodeVarint(v))
         == Parsed(Accepted, Message(if tag == 0x08 then v % 0x1_0000_0000 else 0, [], [], [],
                                     if tag == 0x28 then v % 0x1_0000_0000 else 0, [], []), 0)
  {
    var r := RawVar([tag], EncodeVarint(v));
    TagWord(tag);
    WrittenWord(64, v);
    OneRecordParsed(r);
    forall f
      ensures LastOfField(f, [r]) == if tag / 8 == f then Some(Meaning(r)) else None
    {
      LastOfOne(f, r);
    }
  }

  // ---- error codes and sizes ----

  /** serialize records error 3 exactly when one of the strings it got to is not
      text, and no error otherwise. */
  lemma SerializeError(m: Message, destinationFirst: bool)
    ensures Content(m, destinationFirst).err == if AllText(m) then 0 else 3
  {
  }

  /** parse looks at the size modulo 2^32, as a signed number. */
  lemma ParseAnySize(data: seq<byte>)
    requires data != []
    ensures var len := |data| % 0x1_0000_0000;
            Parse(data) == if 0 < len < 0x8000_0000 then Parse(data[..len])
                           else Parsed(Rejected, Message(0, [], [], [], 0, [], []), 0)
  {
    var len := |data| % 0x1_0000_0000;
    if 0 < len < 0x8000_0000 {
      ParseSmall(data[..len]);
    }
  }
}
