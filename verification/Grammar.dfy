/** The language that parse accepts, and what a parse result depends on. */
module Grammar {
  import opened Bits
  import opened Varint
  import opened Wire
  import opened Messages
  import opened Protobuf

  /** The bytes of one record, split where the parser splits them. */
  datatype Raw =
    | RawVar(key: seq<byte>, num: seq<byte>)
    | RawBody(key: seq<byte>, prefix: seq<byte>, body: seq<byte>)
    | RawFixed64(key: seq<byte>, bits: seq<byte>)

  function Bytes(r: Raw): seq<byte> {
    match r
    case RawVar(key, num) => key + num
    case RawBody(key, prefix, body) => key + (prefix + body)
    case RawFixed64(key, bits) => key + bits
  }

  /** A varint, canonical or not, that a reader of width w takes whole. */
  predicate Word(w: nat, s: seq<byte>) {
    IsVarint(s) && |s| <= if w == 32 then 5 else 10
  }

  function WordValue(w: nat, s: seq<byte>): nat
    requires Width(w)
  {
    Truncate(w, Base128(s))
  }

  function KeyField(key: seq<byte>): nat {
    WordValue(32, key) / 8
  }

  function KeyWire(key: seq<byte>): nat {
    WordValue(32, key) % 8
  }

  /** The records CastMessage handles, field by field and wire type by wire type, in
      the numbers of the format. */
  predicate Handled(r: Raw) {
    Word(32, r.key) &&
    match r
    case RawVar(key, num) =>
      KeyWire(key) == 0 && KeyField(key) in {1, 5} && Word(64, num)
    case RawBody(key, prefix, body) =>
      && KeyWire(key) == 2 && KeyField(key) in {2, 3, 4, 6, 7}
      && Word(32, prefix) && WordValue(32, prefix) == |body| < 0x8000_0000
    case RawFixed64(key, bits) =>
      KeyWire(key) == 1 && |bits| == 8
  }

  function Meaning(r: Raw): Record {
    match r
    case RawVar(key, num) => VarRecord(KeyField(key), WordValue(64, num))
    case RawBody(key, _, body) => BodyRecord(KeyField(key), body)
    case RawFixed64(key, _) => Fixed64Record(KeyField(key))
  }

  function Concat(rs: seq<Raw>): seq<byte> {
    if rs == [] then [] else Bytes(rs[0]) + Concat(rs[1..])
  }

  predicate AllHandled(rs: seq<Raw>) {
    forall i :: 0 <= i < |rs| ==> Handled(rs[i])
  }

  function Fold(m: Message, rs: seq<Raw>): Message
    decreases |rs|
  {
    if rs == [] then m
    else match Apply(m, Meaning(rs[0]))
         case Some(m') => Fold(m', rs[1..])
         case None => m
  }

  // ---- one record ----

  lemma TakeWord(w: nat, c: seq<byte>, rest: seq<byte>)
    requires Width(w) && Word(w, c)
    ensures TakeVarint(w, c + rest) == Taken(WordValue(w, c), |c|) && c != []
    ensures (c + rest)[|c|..] == rest
  {
    ReadAtFront(w, c, rest);
  }

  lemma WordTaken(w: nat, s: seq<byte>, v: nat, n: nat)
    requires Width(w) && TakeVarint(w, s) == Taken(v, n)
    ensures n <= |s| && Word(w, s[..n]) && v == WordValue(w, s[..n])
  {
    ReadVarintExactly(w, s, v, n);
  }

  lemma KeyTakenWord(key: seq<byte>, rest: seq<byte>)
    requires Word(32, key)
    ensures TakeKey(key + rest) == Taken(KeyPair(KeyField(key), KeyWire(key)), |key|)
    ensures (key + rest)[|key|..] == rest
  {
    TakeWord(32, key, rest);
  }

  lemma KeyThenBody(key: seq<byte>, part: seq<byte>, rest: seq<byte>, r: Record)
    requires Word(32, key)
    requires TakeBody(KeyPair(KeyField(key), KeyWire(key)), part + rest) == Taken(r, |part|)
    ensures TakeRecord(key + part + rest) == Taken(r, |key + part|)
  {
    KeyTakenWord(key, part + rest);
    Assoc(key, part, rest);
  }

  /** The parser's step takes a handled record whole and means it. */
  lemma HandledTaken(r: Raw, rest: seq<byte>)
    requires Handled(r)
    ensures TakeRecord(Bytes(r) + rest) == Taken(Meaning(r), |Bytes(r)|)
    ensures (Bytes(r) + rest)[|Bytes(r)|..] == rest
  {
    match r
    case RawVar(key, num) =>
      TakeWord(64, num, rest);
      KeyThenBody(key, num, rest, Meaning(r));
    case RawBody(key, prefix, body) =>
      BodyTaken(prefix, body, rest);
      KeyThenBody(key, prefix + body, rest, Meaning(r));
    case RawFixed64(key, bits) =>
      KeyThenBody(key, bits, rest, Meaning(r));
  }

  lemma BodyTaken(prefix: seq<byte>, body: seq<byte>, rest: seq<byte>)
    requires Word(32, prefix) && WordValue(32, prefix) == |body| < TWO_31
    ensures TakeDelimited(prefix + body + rest) == Taken(Span(body), |prefix + body|)
  {
    TakeWord(32, prefix, body + rest);
    DelimitedTaken(prefix, body, rest);
  }

  lemma HandledApplies(r: Raw, m: Message)
    requires Handled(r)
    ensures Apply(m, Meaning(r)).Some?
  {
  }

  lemma BodySplit(s: seq<byte>, body: seq<byte>, n: nat) returns (prefix: seq<byte>)
    requires TakeDelimited(s) == Taken(Span(body), n)
    ensures Word(32, prefix) && WordValue(32, prefix) == |body| < TWO_31
    ensures n <= |s| && s[..n] == prefix + body
  {
    var t := TakeVarint(32, s);
    WordTaken(32, s, t.value, t.size);
    ToInt32Small(t.value);
    prefix := s[..t.size];
  }

  /** Conversely a record that the step takes and the callbacks accept is handled. */
  lemma TakenHandled(s: seq<byte>, m: Message) returns (r: Raw)
    requires TakeRecord(s).Taken? && Apply(m, TakeRecord(s).value).Some?
    ensures Handled(r) && Bytes(r) == s[..TakeRecord(s).size] && Meaning(r) == TakeRecord(s).value
  {
    var k, n := TakeKey(s).value, TakeKey(s).size;
    var word := TakeVarint(32, s).value;
    WordTaken(32, s, word, n);
    var key, rest := s[..n], s[n..];
    var t := TakeBody(k, rest);
    assert s[..n + t.size] == key + rest[..t.size];
    if k.wire == VARINT {
      WordTaken(64, rest, TakeVarint(64, rest).value, t.size);
      r := RawVar(key, rest[..t.size]);
    } else if k.wire == DELIMITED {
      var prefix := BodySplit(rest, t.value.body, t.size);
      r := RawBody(key, prefix, t.value.body);
    } else {
      r := RawFixed64(key, rest[..8]);
    }
  }

  // ---- whole inputs ----

  lemma {:induction false} HandledParsed(rs: seq<Raw>, rest: seq<byte>, m: Message)
    requires AllHandled(rs)
    ensures ParseRecords(m, Concat(rs) + rest) == ParseRecords(Fold(m, rs), rest)
    decreases |rs|
  {
    if rs == [] {
      assert Concat(rs) + rest == rest;
    } else {
      var tail := Concat(rs[1..]) + rest;
      assert Concat(rs) + rest == Bytes(rs[0]) + tail;
      HandledTaken(rs[0], tail);
      HandledApplies(rs[0], m);
      assert Bytes(rs[0]) + tail != [];
      HandledParsed(rs[1..], rest, Apply(m, Meaning(rs[0])).value);
    }
  }

  lemma ConsHandled(r: Raw, tail: seq<Raw>)
    requires Handled(r) && AllHandled(tail)
    ensures AllHandled([r] + tail) && Concat([r] + tail) == Bytes(r) + Concat(tail)
  {
    assert ([r] + tail)[1..] == tail;
  }

  /** The first record of an accepted input. */
  lemma FirstRaw(m: Message, s: seq<byte>) returns (r: Raw, m': Message, n: nat)
    requires s != [] && ParseRecords(m, s).verdict == Accepted
    ensures Handled(r) && 1 <= n <= |s| && Bytes(r) == s[..n]
    ensures ParseRecords(m', s[n..]).verdict == Accepted
  {
    var step := StepOf(m, TakeRecord(s));
    ParseRound(m, s, step);
    r := TakenHandled(s, m);
    m', n := step.message, step.used;
  }

  lemma {:induction false} Split(m: Message, s: seq<byte>) returns (rs: seq<Raw>)
    requires ParseRecords(m, s).verdict == Accepted
    ensures AllHandled(rs) && Concat(rs) == s
    decreases |s|
  {
    rs := [];
    if s != [] {
      var r, m', n := FirstRaw(m, s);
      var tail := Split(m', s[n..]);
      ConsHandled(r, tail);
      assert s[..n] + s[n..] == s;
      rs := [r] + tail;
    }
  }

  /** parse accepts exactly the concatenations of handled records. */
  lemma AcceptedLanguage(s: seq<byte>)
    requires |s| < TWO_31
    ensures Parse(s).verdict == Accepted <==> exists rs :: AllHandled(rs) && Concat(rs) == s
  {
    ParseSmall(s);
    if Parse(s).verdict == Accepted {
      var rs := Split(EMPTY, s);
      assert AllHandled(rs) && Concat(rs) == s;
    }
    if exists rs :: AllHandled(rs) && Concat(rs) == s {
      var rs :| AllHandled(rs) && Concat(rs) == s;
      HandledParsed(rs, [], EMPTY);
      assert Concat(rs) + [] == s;
    }
  }

  /** What the records of s do to a message, when they are all handled. */
  lemma ParsedIsFold(rs: seq<Raw>)
    requires AllHandled(rs) && |Concat(rs)| < TWO_31
    ensures Parse(Concat(rs)) == Parsed(Accepted, Fold(EMPTY, rs), ERR_OK)
  {
    ParseSmall(Concat(rs));
    HandledParsed(rs, [], EMPTY);
    assert Concat(rs) + [] == Concat(rs);
  }

  // ---- concatenation: last one wins ----

  /** Whether a record is taken, and the verdict, do not depend on the message. */
  lemma {:induction false} VerdictIndependent(m: Message, m': Message, s: seq<byte>)
    ensures ParseRecords(m, s).verdict == ParseRecords(m', s).verdict
    ensures ParseRecords(m, s).err == ParseRecords(m', s).err
    decreases |s|
  {
    if s != [] && TakeRecord(s).Taken? {
      var r, n := TakeRecord(s).value, TakeRecord(s).size;
      if Apply(m, r).Some? {
        VerdictIndependent(Apply(m, r).value, Apply(m', r).value, s[n..]);
      }
    }
  }

  /** After an accepted input, more input is judged as it would be alone, and its
      records are applied to the result so far. */
  lemma Concatenation(a: seq<byte>, b: seq<byte>)
    requires |a| + |b| < TWO_31 && Parse(a).verdict == Accepted
    ensures Parse(a + b) == ParseRecords(Parse(a).message, b)
    ensures Parse(a + b).verdict == Parse(b).verdict && Parse(a + b).err == Parse(b).err
  {
    ParseSmall(a);
    ParseSmall(b);
    ParseSmall(a + b);
    var rs := Split(EMPTY, a);
    HandledParsed(rs, b, EMPTY);
    HandledParsed(rs, [], EMPTY);
    assert Concat(rs) + [] == a;
    VerdictIndependent(Parse(a).message, EMPTY, b);
  }

  // ---- only the last record of each field matters ----

  /** The records of field f, in order; ignored fixed64 records have none. */
  function OfField(f: nat, rs: seq<Raw>): seq<Record> {
    if rs == [] then [] else IfField(f, Meaning(rs[0])) + OfField(f, rs[1..])
  }

  function IfField(f: nat, r: Record): seq<Record> {
    if !r.Fixed64Record? && r.field == f then [r] else []
  }

  function LastOfField(f: nat, rs: seq<Raw>): Option<Record> {
    var all := OfField(f, rs);
    if all == [] then None else Some(all[|all| - 1])
  }

  function BodyOr(r: Option<Record>, default: seq<byte>): seq<byte> {
    if r.Some? && r.value.BodyRecord? then r.value.body else default
  }

  function VarOr(r: Option<Record>, default: uint32): uint32 {
    if r.Some? && r.value.VarRecord? then r.value.value % TWO_32 else default
  }

  /** m with each field replaced by the last record of that field, if any. */
  function Overlay(m: Message, rs: seq<Raw>): Message {
    Message(VarOr(LastOfField(1, rs), m.protocolVersion),
            BodyOr(LastOfField(2, rs), m.sourceId),
            BodyOr(LastOfField(3, rs), m.destinationId),
            BodyOr(LastOfField(4, rs), m.namespace),
            VarOr(LastOfField(5, rs), m.payloadType),
            BodyOr(LastOfField(6, rs), m.payloadUtf8),
            BodyOr(LastOfField(7, rs), m.payloadBinary))
  }

  /** Only text and bytes are stored under the body fields, numbers under the others. */
  predicate RightKind(f: nat, r: Record) {
    if f == PROTOCOL_VERSION || f == PAYLOAD_TYPE then r.VarRecord? else r.BodyRecord?
  }

  lemma {:induction false} KindOfField(f: nat, rs: seq<Raw>)
    requires AllHandled(rs) && PROTOCOL_VERSION <= f <= PAYLOAD_BINARY
    ensures LastOfField(f, rs).Some? ==> RightKind(f, LastOfField(f, rs).value)
    decreases |rs|
  {
    if rs != [] {
      KindOfField(f, rs[1..]);
      LastOfCons(f, rs);
    }
  }

  lemma LastOfCons(f: nat, rs: seq<Raw>)
    requires rs != []
    ensures var r, tail := Meaning(rs[0]), LastOfField(f, rs[1..]);
            LastOfField(f, rs) == if tail.Some? then tail
                                  else if !r.Fixed64Record? && r.field == f then Some(r) else None
  {
  }

  function BodyIf(f: nat, r: Record, default: seq<byte>): seq<byte> {
    if r.BodyRecord? && r.field == f then r.body else default
  }

  function VarIf(f: nat, r: Record, default: uint32): uint32 {
    if r.VarRecord? && r.field == f then r.value % TWO_32 else default
  }

  lemma BodyCons(f: nat, rs: seq<Raw>, d: seq<byte>)
    requires rs != [] && AllHandled(rs) && PROTOCOL_VERSION <= f <= PAYLOAD_BINARY
    requires f != PROTOCOL_VERSION && f != PAYLOAD_TYPE
    ensures BodyOr(LastOfField(f, rs), d)
         == BodyOr(LastOfField(f, rs[1..]), BodyIf(f, Meaning(rs[0]), d))
  {
    LastOfCons(f, rs);
    KindOfField(f, rs);
    KindOfField(f, rs[1..]);
  }

  lemma VarCons(f: nat, rs: seq<Raw>, d: uint32)
    requires rs != [] && AllHandled(rs) && (f == PROTOCOL_VERSION || f == PAYLOAD_TYPE)
    ensures VarOr(LastOfField(f, rs), d)
         == VarOr(LastOfField(f, rs[1..]), VarIf(f, Meaning(rs[0]), d))
  {
    LastOfCons(f, rs);
    KindOfField(f, rs);
    KindOfField(f, rs[1..]);
  }

  lemma ApplyByField(m: Message, r: Record)
    requires Apply(m, r).Some?
    ensures Apply(m, r).value == Message(
              VarIf(PROTOCOL_VERSION, r, m.protocolVersion),
              BodyIf(SOURCE_ID, r, m.sourceId),
              BodyIf(DESTINATION_ID, r, m.destinationId),
              BodyIf(NAMESPACE, r, m.namespace),
              VarIf(PAYLOAD_TYPE, r, m.payloadType),
              BodyIf(PAYLOAD_UTF8, r, m.payloadUtf8),
              BodyIf(PAYLOAD_BINARY, r, m.payloadBinary))
  {
  }

  lemma OverlayCons(m: Message, rs: seq<Raw>, m': Message)
    requires rs != [] && AllHandled(rs) && Apply(m, Meaning(rs[0])) == Some(m')
    ensures Overlay(m, rs) == Overlay(m', rs[1..])
  {
    ApplyByField(m, Meaning(rs[0]));
    VarCons(PROTOCOL_VERSION, rs, m.protocolVersion);
    BodyCons(SOURCE_ID, rs, m.sourceId);
    BodyCons(DESTINATION_ID, rs, m.destinationId);
    BodyCons(NAMESPACE, rs, m.namespace);
    VarCons(PAYLOAD_TYPE, rs, m.payloadType);
    BodyCons(PAYLOAD_UTF8, rs, m.payloadUtf8);
    BodyCons(PAYLOAD_BINARY, rs, m.payloadBinary);
  }

  lemma {:induction false} FoldIsOverlay(m: Message, rs: seq<Raw>)
    requires AllHandled(rs)
    ensures Fold(m, rs) == Overlay(m, rs)
    decreases |rs|
  {
    if rs != [] {
      HandledApplies(rs[0], m);
      FoldIsOverlay(Apply(m, Meaning(rs[0])).value, rs[1..]);
      OverlayCons(m, rs, Apply(m, Meaning(rs[0])).value);
    }
  }

  /** parse(a ++ b) overlays a's result with b's last record of each field. */
  lemma LastOneWins(a: seq<byte>, rs: seq<Raw>)
    requires |a| + |Concat(rs)| < TWO_31 && Parse(a).verdict == Accepted && AllHandled(rs)
    ensures Parse(a + Concat(rs)) == Parsed(Accepted, Overlay(Parse(a).message, rs), ERR_OK)
  {
    Concatenation(a, Concat(rs));
    HandledParsed(rs, [], Parse(a).message);
    assert Concat(rs) + [] == Concat(rs);
    FoldIsOverlay(Parse(a).message, rs);
  }

  /** Inputs whose last record of each field agree parse alike. */
  lemma SameLastSameResult(rs: seq<Raw>, rs': seq<Raw>)
    requires AllHandled(rs) && AllHandled(rs')
    requires |Concat(rs)| < TWO_31 && |Concat(rs')| < TWO_31
    requires forall f :: PROTOCOL_VERSION <= f <= PAYLOAD_BINARY ==> LastOfField(f, rs) == LastOfField(f, rs')
    ensures Parse(Concat(rs)) == Parse(Concat(rs'))
  {
    ParsedIsFold(rs);
    ParsedIsFold(rs');
    FoldIsOverlay(EMPTY, rs);
    FoldIsOverlay(EMPTY, rs');
  }

  lemma {:induction false} OfFieldAppend(f: nat, a: seq<Raw>, b: seq<Raw>)
    ensures OfField(f, a + b) == OfField(f, a) + OfField(f, b)
  {
    if a == [] {
      assert a + b == b;
    } else {
      OfFieldAppend(f, a[1..], b);
      assert (a + b)[1..] == a[1..] + b && (a + b)[0] == a[0];
      RegroupRecords(IfField(f, Meaning(a[0])), OfField(f, a[1..]), OfField(f, b));
    }
  }

  lemma RegroupRecords(a: seq<Record>, b: seq<Record>, c: seq<Record>)
    ensures a + (b + c) == (a + b) + c
  {
  }

  /** Exchanging neighbouring records of distinct fields changes nothing. */
  lemma Reordering(a: seq<Raw>, x: Raw, y: Raw, b: seq<Raw>)
    requires AllHandled(a + [x, y] + b) && Meaning(x).field != Meaning(y).field
    requires |Concat(a + [x, y] + b)| < TWO_31 && |Concat(a + [y, x] + b)| < TWO_31
    ensures Parse(Concat(a + [x, y] + b)) == Parse(Concat(a + [y, x] + b))
  {
    var rs, rs' := a + [x, y] + b, a + [y, x] + b;
    SwapHandled(a, x, y, b);
    forall f | PROTOCOL_VERSION <= f <= PAYLOAD_BINARY
      ensures LastOfField(f, rs) == LastOfField(f, rs')
    {
      SwapOfField(f, a, x, y, b);
    }
    SameLastSameResult(rs, rs');
  }

  lemma SwapHandled(a: seq<Raw>, x: Raw, y: Raw, b: seq<Raw>)
    requires AllHandled(a + [x, y] + b)
    ensures AllHandled(a + [y, x] + b)
  {
    var rs, rs' := a + [x, y] + b, a + [y, x] + b;
    assert rs[|a|] == x && rs[|a| + 1] == y;
    assert forall i :: 0 <= i < |rs'| && i != |a| && i != |a| + 1 ==> rs'[i] == rs[i];
  }

  lemma SwapOfField(f: nat, a: seq<Raw>, x: Raw, y: Raw, b: seq<Raw>)
    requires Meaning(x).field != Meaning(y).field
    ensures OfField(f, a + [x, y] + b) == OfField(f, a + [y, x] + b)
  {
    OfFieldAppend(f, a + [x, y], b);
    OfFieldAppend(f, a, [x, y]);
    OfFieldAppend(f, a + [y, x], b);
    OfFieldAppend(f, a, [y, x]);
    OfFieldPair(f, x, y);
  }

  lemma OfFieldPair(f: nat, x: Raw, y: Raw)
    requires Meaning(x).field != Meaning(y).field
    ensures OfField(f, [x, y]) == OfField(f, [y, x])
  {
    assert [x, y][1..] == [y] && [y, x][1..] == [x];
    assert [x][1..] == [] && [y][1..] == [];
  }
}
