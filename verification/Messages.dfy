/** CastMessage as a value: what parsing a byte string gives, and what serializing
    a message writes. */
module Messages {
  import opened Bits
  import opened Varint
  import opened Wire
  import opened Protobuf
  import opened Utf8
  import ZigZag

  datatype Message = Message(
    protocolVersion: uint32,
    sourceId: seq<byte>,
    destinationId: seq<byte>,
    namespace: seq<byte>,
    payloadType: uint32,
    payloadUtf8: seq<byte>,
    payloadBinary: seq<byte>)

  const EMPTY := Message(0, [], [], [], 0, [], [])

  const PROTOCOL_VERSION := 1
  const SOURCE_ID := 2
  const DESTINATION_ID := 3
  const NAMESPACE := 4
  const PAYLOAD_TYPE := 5
  const PAYLOAD_UTF8 := 6
  const PAYLOAD_BINARY := 7

  /** The strings fit in the memory of a 64-bit machine. */
  ghost predicate Storable(m: Message) {
    |m.sourceId| + |m.destinationId| + |m.namespace| + |m.payloadUtf8| + |m.payloadBinary| < TWO_63
  }

  // ---- parsing ----

  /** on_var, on_cls, on_fix32 and on_fix64: None where they return false. */
  function Apply(m: Message, r: Record): Option<Message> {
    match r
    case VarRecord(f, v) =>
      if f == PROTOCOL_VERSION then Some(m.(protocolVersion := v % TWO_32))
      else if f == PAYLOAD_TYPE then Some(m.(payloadType := v % TWO_32))
      else None
    case BodyRecord(f, body) =>
      if f == SOURCE_ID then Some(m.(sourceId := body))
      else if f == DESTINATION_ID then Some(m.(destinationId := body))
      else if f == NAMESPACE then Some(m.(namespace := body))
      else if f == PAYLOAD_UTF8 then Some(m.(payloadUtf8 := body))
      else if f == PAYLOAD_BINARY then Some(m.(payloadBinary := body))
      else None
    case StrayRecord(_, _) => None
    case Fixed32Record(_) => None
    case Fixed64Record(_) => Some(m)
  }

  /** Strayed: on_cls would store bytes from outside the input. */
  datatype Verdict = Accepted | Rejected | Strayed

  /** The outcome, the fields as parsing leaves them, and the error code. */
  datatype Parsed = Parsed(verdict: Verdict, message: Message, err: int)

  /** One round of parse: go on with a message, past so many bytes, or stop. */
  datatype Step = Onward(message: Message, used: nat) | Halt(result: Parsed)

  /** The fields that on_cls stores. */
  predicate ClsField(f: nat) {
    f in {SOURCE_ID, DESTINATION_ID, NAMESPACE, PAYLOAD_UTF8, PAYLOAD_BINARY}
  }

  function StepOf(m: Message, t: Taken<Record>): Step {
    match t
    case Refused(err) => Halt(Parsed(Rejected, m, err))
    case Taken(r, n) =>
      match Apply(m, r)
      case None =>
        Halt(Parsed(if r.StrayRecord? && ClsField(r.field) then Strayed else Rejected, m, ERR_OK))
      case Some(m') => Onward(m', n)
  }

  /** Records of s applied to m in turn, up to the first one that is refused. */
  function ParseRecords(m: Message, s: seq<byte>): Parsed
    decreases |s|
  {
    if s == [] then Parsed(Accepted, m, ERR_OK)
    else
      match StepOf(m, TakeRecord(s))
      case Halt(p) => p
      case Onward(m', n) => ParseRecords(m', s[n..])
  }

  lemma ParseRound(m: Message, s: seq<byte>, step: Step)
    requires s != [] && step == StepOf(m, TakeRecord(s))
    ensures step.Onward? ==>
            1 <= step.used <= |s| && ParseRecords(m, s) == ParseRecords(step.message, s[step.used..])
    ensures step.Halt? ==> ParseRecords(m, s) == step.result
  {
  }

  /** The round in two halves: the key, and what follows it. */
  lemma StepAfterKey(m: Message, s: seq<byte>, k: KeyPair, n: nat)
    requires TakeKey(s) == Taken(k, n)
    ensures var first, whole := StepOf(m, TakeBody(k, s[n..])), StepOf(m, TakeRecord(s));
            whole == if first.Onward? then Onward(first.message, n + first.used) else first
  {
  }

  /** parse: the size is narrowed to a 32-bit int before the loop. */
  function Parse(data: seq<byte>): Parsed {
    var len := ToInt32(|data|);
    if data == [] then Parsed(Accepted, EMPTY, ERR_OK)
    else if len <= 0 then Parsed(Rejected, EMPTY, ERR_OK)
    else ParseRecords(EMPTY, data[..len])
  }

  lemma ParseSmall(data: seq<byte>)
    requires |data| < TWO_31
    ensures Parse(data) == ParseRecords(EMPTY, data)
  {
    ToInt32Small(|data|);
    assert data[..|data|] == data;
  }

  // ---- serializing ----

  function VarBytes(field: nat, u: uint32): seq<byte> {
    EncodeVarint(Key(field, VARINT)) + EncodeVarint(ZigZag.Code(32, u))
  }

  /** What a writer returned, appended and recorded as its error. */
  datatype Written = Written(ok: bool, bytes: seq<byte>, err: int)

  predicate IsTextField(s: seq<byte>) {
    IsText(CString(s))
  }

  /** The two strings joined by +, in the order their operands are evaluated. */
  function AddressBytes(m: Message, destinationFirst: bool): seq<byte> {
    if destinationFirst
    then StrBytes(DESTINATION_ID, m.destinationId) + StrBytes(NAMESPACE, m.namespace)
    else StrBytes(NAMESPACE, m.namespace) + StrBytes(DESTINATION_ID, m.destinationId)
  }

  /** out_content, with the short-circuits of && and the sum in the middle. */
  function Content(m: Message, destinationFirst: bool): Written {
    var head := VarBytes(PROTOCOL_VERSION, m.protocolVersion) + StrBytes(SOURCE_ID, m.sourceId);
    var dest, ns := IsTextField(m.destinationId), IsTextField(m.namespace);
    if !IsTextField(m.sourceId) then Written(false, head, ERR_NOT_UTF8)
    else
      var middle := head + AddressBytes(m, destinationFirst);
      if !dest && !ns then Written(false, middle, ERR_NOT_UTF8)
      else
        var most := middle + VarBytes(PAYLOAD_TYPE, m.payloadType)
                  + StrBytes(PAYLOAD_UTF8, m.payloadUtf8);
        if !IsTextField(m.payloadUtf8) then Written(false, most, ERR_NOT_UTF8)
        else Written(true, most + ClsBytes(PAYLOAD_BINARY, m.payloadBinary),
                     if dest && ns then ERR_OK else ERR_NOT_UTF8)
  }

  // ---- sizes ----

  function SizeKey(field: nat, wire: nat): nat {
    VarintSize(Key(field, wire))
  }

  function SizeLengthDelimited(len: nat): nat {
    if len > 0 then VarintSize(len) + len else 0
  }

  function SizeVar(field: nat, u: uint32): nat {
    SizeKey(field, VARINT) + VarintSize(ZigZag.Code(32, u))
  }

  function SizeCls(field: nat, size: nat): nat {
    if size == 0 then 0 else SizeKey(field, DELIMITED) + SizeLengthDelimited(size)
  }

  function SizeStr(field: nat, s: seq<byte>): nat {
    SizeCls(field, |CString(s)|)
  }

  function SizeContent(m: Message): nat {
    SizeVar(PROTOCOL_VERSION, m.protocolVersion)
    + SizeStr(SOURCE_ID, m.sourceId)
    + SizeStr(DESTINATION_ID, m.destinationId)
    + SizeStr(NAMESPACE, m.namespace)
    + SizeVar(PAYLOAD_TYPE, m.payloadType)
    + SizeStr(PAYLOAD_UTF8, m.payloadUtf8)
    + SizeCls(PAYLOAD_BINARY, |m.payloadBinary|)
  }
}
