/** Serializing and parsing back, and the sizes announced beforehand. */
module MessageRoundTrip {
  import opened Bits
  import opened Varint
  import opened Wire
  import opened Protobuf
  import opened Messages
  import opened Grammar
  import opened Utf8
  import ZigZag

  // ---- what is written is a list of handled records ----

  function VarRaws(field: nat, u: uint32): seq<Raw> {
    [RawVar(EncodeVarint(Key(field, VARINT)), EncodeVarint(ZigZag.Code(32, u)))]
  }

  function BodyRaws(field: nat, body: seq<byte>): seq<Raw> {
    if body == [] then []
    else [RawBody(EncodeVarint(Key(field, DELIMITED)), EncodeVarint(|body|), body)]
  }

  /** The part of a string that is written: up to the first NUL, if it is text. */
  function Kept(s: seq<byte>): seq<byte> {
    if IsTextField(s) then CString(s) else []
  }

  function AddressRaws(m: Message, destinationFirst: bool): seq<Raw> {
    var d := BodyRaws(DESTINATION_ID, Kept(m.destinationId));
    var n := BodyRaws(NAMESPACE, Kept(m.namespace));
    if destinationFirst then d + n else n + d
  }

  function HeadRaws(m: Message, destinationFirst: bool): seq<Raw> {
    VarRaws(PROTOCOL_VERSION, m.protocolVersion)
    + BodyRaws(SOURCE_ID, Kept(m.sourceId))
    + AddressRaws(m, destinationFirst)
  }

  function ContentRaws(m: Message, destinationFirst: bool): seq<Raw> {
    HeadRaws(m, destinationFirst)
    + VarRaws(PAYLOAD_TYPE, m.payloadType)
    + BodyRaws(PAYLOAD_UTF8, Kept(m.payloadUtf8))
    + BodyRaws(PAYLOAD_BINARY, m.payloadBinary)
  }

  function HeadBytes(m: Message, destinationFirst: bool): seq<byte> {
    VarBytes(PROTOCOL_VERSION, m.protocolVersion) + StrBytes(SOURCE_ID, m.sourceId)
    + AddressBytes(m, destinationFirst)
  }

  lemma {:induction false} ConcatAppend(a: seq<Raw>, b: seq<Raw>)
    ensures Concat(a + b) == Concat(a) + Concat(b)
  {
    if a == [] {
      assert a + b == b;
    } else {
      ConcatAppend(a[1..], b);
      assert (a + b)[1..] == a[1..] + b && (a + b)[0] == a[0];
      Assoc(Bytes(a[0]), Concat(a[1..]), Concat(b));
    }
  }

  lemma {:induction false} FoldAppend(m: Message, a: seq<Raw>, b: seq<Raw>)
    requires AllHandled(a)
    ensures Fold(m, a + b) == Fold(Fold(m, a), b)
    decreases |a|
  {
    if a == [] {
      assert a + b == b;
    } else {
      HandledApplies(a[0], m);
      FoldAppend(Apply(m, Meaning(a[0])).value, a[1..], b);
      assert (a + b)[1..] == a[1..] + b;
    }
  }

  lemma WrittenWord(w: nat, v: nat)
    requires Width(w) && v < Limit(w)
    ensures Word(w, EncodeVarint(v)) && WordValue(w, EncodeVarint(v)) == v
  {
    WordSize(w, v);
    SizeIsLength(v);
    EncodeIsVarint(v);
  }

  lemma WrittenKey(field: nat, wire: nat, key: seq<byte>)
    requires field < TWO_29 && wire < 8 && key == EncodeVarint(Key(field, wire))
    ensures Word(32, key) && KeyField(key) == field && KeyWire(key) == wire
  {
    var k := Key(field, wire);
    WrittenWord(32, k);
    KeyParts(field, wire, k);
  }

  /** rs is written as bs and turns m into m'. */
  ghost predicate Piece(m: Message, rs: seq<Raw>, bs: seq<byte>, m': Message) {
    AllHandled(rs) && Concat(rs) == bs && Fold(m, rs) == m'
  }

  lemma Then(m: Message, a: seq<Raw>, x: seq<byte>, m1: Message, b: seq<Raw>, y: seq<byte>, m2: Message)
    requires Piece(m, a, x, m1) && Piece(m1, b, y, m2)
    ensures Piece(m, a + b, x + y, m2)
  {
    ConcatAppend(a, b);
    FoldAppend(m, a, b);
  }

  lemma OneRecord(m: Message, r: Raw)
    requires Handled(r)
    ensures Piece(m, [r], Bytes(r), Apply(m, Meaning(r)).value)
  {
    HandledApplies(r, m);
    assert [r][1..] == [];
    assert Bytes(r) + [] == Bytes(r);
  }

  /** The code of an enum field, which is what the reader stores. */
  function Coded(u: uint32): uint32 {
    ZigZag.Code(32, u)
  }

  lemma ApplyVar(m: Message, field: nat, z: uint32)
    requires field == PROTOCOL_VERSION || field == PAYLOAD_TYPE
    ensures Apply(m, VarRecord(field, z))
         == Some(if field == PROTOCOL_VERSION then m.(protocolVersion := z) else m.(payloadType := z))
  {
  }

  lemma VarPiece(m: Message, field: nat, u: uint32, m': Message)
    requires field == PROTOCOL_VERSION || field == PAYLOAD_TYPE
    requires m' == if field == PROTOCOL_VERSION then m.(protocolVersion := Coded(u))
                   else m.(payloadType := Coded(u))
    ensures Piece(m, VarRaws(field, u), VarBytes(field, u), m')
  {
    var z := Coded(u);
    var r := RawVar(EncodeVarint(Key(field, VARINT)), EncodeVarint(z));
    assert VarRaws(field, u) == [r] && VarBytes(field, u) == Bytes(r);
    VarHandled(field, z, r);
    ApplyVar(m, field, z);
    OneRecord(m, r);
  }

  lemma VarHandled(field: nat, z: uint32, r: Raw)
    requires field == PROTOCOL_VERSION || field == PAYLOAD_TYPE
    requires r == RawVar(EncodeVarint(Key(field, VARINT)), EncodeVarint(z))
    ensures Handled(r) && Meaning(r) == VarRecord(field, z)
  {
    WrittenKey(field, VARINT, r.key);
    WrittenWord(64, z);
  }

  lemma BodyPiece(m: Message, field: nat, body: seq<byte>, m': Message)
    requires field in {SOURCE_ID, DESTINATION_ID, NAMESPACE, PAYLOAD_UTF8, PAYLOAD_BINARY}
    requires |body| < TWO_31
    requires m' == if body == [] then m else Apply(m, BodyRecord(field, body)).value
    ensures Piece(m, BodyRaws(field, body), ClsBytes(field, body), m')
  {
    if body != [] {
      var r := BodyRaws(field, body)[0];
      WrittenKey(field, DELIMITED, r.key);
      WrittenWord(32, |body|);
      OneRecord(m, r);
    }
  }

  lemma StrPiece(m: Message, field: nat, s: seq<byte>, m': Message)
    requires field in {SOURCE_ID, DESTINATION_ID, NAMESPACE, PAYLOAD_UTF8, PAYLOAD_BINARY}
    requires |Kept(s)| < TWO_31
    requires m' == if Kept(s) == [] then m else Apply(m, BodyRecord(field, Kept(s))).value
    ensures Piece(m, BodyRaws(field, Kept(s)), StrBytes(field, s), m')
  {
    BodyPiece(m, field, Kept(s), m');
  }

  // ---- the round trip ----

  /** When serialize succeeds: the sum in the middle fails only if both of its
      strings do. */
  predicate Serializable(m: Message) {
    && IsTextField(m.sourceId) && IsTextField(m.payloadUtf8)
    && (IsTextField(m.destinationId) || IsTextField(m.namespace))
  }

  predicate AllText(m: Message) {
    && IsTextField(m.sourceId) && IsTextField(m.payloadUtf8)
    && IsTextField(m.destinationId) && IsTextField(m.namespace)
  }

  /** What comes back: strings cut at the first NUL, a refused address string
      dropped, and the enums replaced by their zigzag codes. */
  function Received(m: Message): Message {
    Message(Coded(m.protocolVersion), Kept(m.sourceId), Kept(m.destinationId),
            Kept(m.namespace), Coded(m.payloadType), Kept(m.payloadUtf8),
            m.payloadBinary)
  }

  /** Every length prefix that is written is below 2^31. */
  predicate ShortBodies(m: Message) {
    && |Kept(m.sourceId)| < TWO_31 && |Kept(m.destinationId)| < TWO_31
    && |Kept(m.namespace)| < TWO_31 && |Kept(m.payloadUtf8)| < TWO_31
    && |m.payloadBinary| < TWO_31
  }

  lemma AddressPiece(m0: Message, m: Message, destinationFirst: bool, m': Message)
    requires ShortBodies(m) && m0.destinationId == [] && m0.namespace == []
    requires m' == m0.(destinationId := Kept(m.destinationId), namespace := Kept(m.namespace))
    ensures Piece(m0, AddressRaws(m, destinationFirst), AddressBytes(m, destinationFirst), m')
  {
    var d, n := m.destinationId, m.namespace;
    var dr, nr := BodyRaws(DESTINATION_ID, Kept(d)), BodyRaws(NAMESPACE, Kept(n));
    var db, nb := StrBytes(DESTINATION_ID, d), StrBytes(NAMESPACE, n);
    if destinationFirst {
      var m1 := m0.(destinationId := Kept(d));
      StrPiece(m0, DESTINATION_ID, d, m1);
      StrPiece(m1, NAMESPACE, n, m');
      Then(m0, dr, db, m1, nr, nb, m');
    } else {
      var m1 := m0.(namespace := Kept(n));
      StrPiece(m0, NAMESPACE, n, m1);
      StrPiece(m1, DESTINATION_ID, d, m');
      Then(m0, nr, nb, m1, dr, db, m');
    }
  }

  /** The fields up to the two address strings. */
  lemma HeadPiece(m: Message, destinationFirst: bool, m': Message)
    requires ShortBodies(m)
    requires var r := Received(m);
             m' == EMPTY.(protocolVersion := r.protocolVersion, sourceId := r.sourceId,
                          destinationId := r.destinationId, namespace := r.namespace)
    ensures Piece(EMPTY, HeadRaws(m, destinationFirst), HeadBytes(m, destinationFirst), m')
  {
    var a, x := VarRaws(PROTOCOL_VERSION, m.protocolVersion), VarBytes(PROTOCOL_VERSION, m.protocolVersion);
    var b, y := BodyRaws(SOURCE_ID, Kept(m.sourceId)), StrBytes(SOURCE_ID, m.sourceId);
    var c, z := AddressRaws(m, destinationFirst), AddressBytes(m, destinationFirst);
    var m1 := EMPTY.(protocolVersion := Received(m).protocolVersion);
    var m2 := m1.(sourceId := Kept(m.sourceId));
    VarPiece(EMPTY, PROTOCOL_VERSION, m.protocolVersion, m1);
    StrPiece(m1, SOURCE_ID, m.sourceId, m2);
    Then(EMPTY, a, x, m1, b, y, m2);
    AddressPiece(m2, m, destinationFirst, m');
    Then(EMPTY, a + b, x + y, m2, c, z, m');
  }

  /** The whole message. */
  lemma ContentPiece(m: Message, destinationFirst: bool)
    requires Serializable(m) && ShortBodies(m)
    ensures Piece(EMPTY, ContentRaws(m, destinationFirst), Content(m, destinationFirst).bytes, Received(m))
  {
    var h, w := HeadRaws(m, destinationFirst), HeadBytes(m, destinationFirst);
    var a, x := VarRaws(PAYLOAD_TYPE, m.payloadType), VarBytes(PAYLOAD_TYPE, m.payloadType);
    var b, y := BodyRaws(PAYLOAD_UTF8, Kept(m.payloadUtf8)), StrBytes(PAYLOAD_UTF8, m.payloadUtf8);
    var c, z := BodyRaws(PAYLOAD_BINARY, m.payloadBinary), ClsBytes(PAYLOAD_BINARY, m.payloadBinary);
    var r := Received(m);
    var m1 := r.(payloadType := 0, payloadUtf8 := [], payloadBinary := []);
    var m2 := m1.(payloadType := r.payloadType);
    var m3 := m2.(payloadUtf8 := r.payloadUtf8);
    HeadPiece(m, destinationFirst, m1);
    VarPiece(m1, PAYLOAD_TYPE, m.payloadType, m2);
    Then(EMPTY, h, w, m1, a, x, m2);
    StrPiece(m2, PAYLOAD_UTF8, m.payloadUtf8, m3);
    Then(EMPTY, h + a, w + x, m2, b, y, m3);
    BodyPiece(m3, PAYLOAD_BINARY, m.payloadBinary, r);
    Then(EMPTY, h + a + b, w + x + y, m3, c, z, r);
  }

  /** serialize succeeds exactly on the messages of Serializable, and then parsing
      its bytes gives the received form of the message, for either evaluation order
      of the sum in out_content. */
  lemma SerializeThenParse(m: Message, destinationFirst: bool)
    ensures Content(m, destinationFirst).ok <==> Serializable(m)
    ensures Serializable(m) && |Content(m, destinationFirst).bytes| < TWO_31 ==>
            Parse(Content(m, destinationFirst).bytes) == Parsed(Accepted, Received(m), ERR_OK)
  {
    var bytes := Content(m, destinationFirst).bytes;
    if Serializable(m) && |bytes| < TWO_31 {
      BodiesAreShort(m, destinationFirst);
      ContentPiece(m, destinationFirst);
      ParsedIsFold(ContentRaws(m, destinationFirst));
    }
  }

  /** The message comes back unchanged exactly when both enums are 0, no string has
      a NUL, and neither address string was refused. */
  lemma UnchangedExactly(m: Message)
    requires Serializable(m)
    ensures Received(m) == m <==>
            && m.protocolVersion == 0 && m.payloadType == 0
            && 0 !in m.sourceId && 0 !in m.destinationId && 0 !in m.namespace && 0 !in m.payloadUtf8
            && IsTextField(m.destinationId) && IsTextField(m.namespace)
  {
    CStringWhole(m.sourceId);
    CStringWhole(m.destinationId);
    CStringWhole(m.namespace);
    CStringWhole(m.payloadUtf8);
  }

  lemma ClsLonger(field: nat, body: seq<byte>)
    ensures |body| <= |ClsBytes(field, body)|
  {
  }

  lemma BodiesAreShort(m: Message, destinationFirst: bool)
    requires Serializable(m) && |Content(m, destinationFirst).bytes| < TWO_31
    ensures ShortBodies(m)
  {
    ClsLonger(SOURCE_ID, Kept(m.sourceId));
    ClsLonger(DESTINATION_ID, Kept(m.destinationId));
    ClsLonger(NAMESPACE, Kept(m.namespace));
    ClsLonger(PAYLOAD_UTF8, Kept(m.payloadUtf8));
    ClsLonger(PAYLOAD_BINARY, m.payloadBinary);
  }
}
