/** What the reader takes off the front of a byte string, layer by layer: varint,
    key, length-delimited body, record (Protocol Buffers Documentation,
    "Encoding", sections "Message Structure" and "Length-Delimited Records"). */
module Wire {
  import opened Bits
  import opened Varint

  const VARINT := 0
  const FIXED64 := 1
  const DELIMITED := 2
  const FIXED32 := 5

  const TWO_29 := 0x2000_0000
  const TWO_31 := 0x8000_0000

  const TWO_63 := 0x8000_0000_0000_0000

  type uint32 = n: int | 0 <= n < TWO_32

  const ERR_OK := 0
  const ERR_DECODE := 2
  const ERR_NOT_UTF8 := 3

  /** A value and the number of bytes it took; or a refusal with the error code it
      records (ERR_OK when it records none). */
  datatype Taken<+T> = Taken(value: T, size: nat) | Refused(err: int)

  datatype KeyPair = KeyPair(field: nat, wire: nat)

  /** What a length prefix announces: bytes of the input, or so many of them that the
      signed comparison passes and the cursor leaves the input. */
  datatype Delimited = Span(bytes: seq<byte>) | Stray(prefix: nat)

  datatype Record =
    | VarRecord(field: nat, value: nat)
    | BodyRecord(field: nat, body: seq<byte>)
    | StrayRecord(field: nat, prefix: nat)
    | Fixed32Record(field: nat)
    | Fixed64Record(field: nat)

  /** (int)n for an unsigned n, or for arithmetic modulo 2^32. */
  function ToInt32(n: int): int {
    var u := n % TWO_32;
    if u < TWO_31 then u else u - TWO_32
  }

  lemma ToInt32Small(n: nat)
    requires n < TWO_31
    ensures ToInt32(n) == n
  {
  }

  /** The key of a record: field number above, wire type below, in 32 bits. */
  function Key(field: nat, wire: nat): (key: nat)
    ensures key < TWO_32
  {
    8 * (field % TWO_29) + wire % 8
  }

  function TakeVarint(w: nat, s: seq<byte>): (t: Taken<nat>)
    requires Width(w)
    ensures t.Taken? ==> 1 <= t.size <= |s| && t.value < Limit(w)
  {
    match ReadVarint(w, s)
    case Some(t) => Taken(t.value, t.size)
    case None => Refused(if s == [] then ERR_OK else ERR_DECODE)
  }

  function TakeKey(s: seq<byte>): (t: Taken<KeyPair>)
    ensures t.Taken? ==> 1 <= t.size <= |s|
  {
    match TakeVarint(32, s)
    case Taken(key, n) => Taken(KeyPair(key / 8, key % 8), n)
    case Refused(err) => Refused(err)
  }

  /** A stray prefix takes its own bytes; where the cursor goes then is for the
      method to say. */
  function TakeDelimited(s: seq<byte>): (t: Taken<Delimited>)
    ensures t.Taken? ==> 1 <= t.size <= |s|
  {
    match TakeVarint(32, s)
    case Taken(ul, n) =>
      if |s| - n < ToInt32(ul) then Refused(ERR_DECODE)
      else if ul >= TWO_31 then Taken(Stray(ul), n)
      else ToInt32Small(ul); Taken(Span(s[n..n + ul]), n + ul)
    case Refused(err) => Refused(err)
  }

  /** What follows the key k. */
  function TakeBody(k: KeyPair, r: seq<byte>): (t: Taken<Record>)
    ensures t.Taken? ==> 1 <= t.size <= |r|
  {
    if k.wire == VARINT then
      match TakeVarint(64, r)
      case Taken(v, n) => Taken(VarRecord(k.field, v), n)
      case Refused(err) => Refused(err)
    else if k.wire == DELIMITED then
      match TakeDelimited(r)
      case Taken(Span(body), n) => Taken(BodyRecord(k.field, body), n)
      case Taken(Stray(ul), n) => Taken(StrayRecord(k.field, ul), n)
      case Refused(err) => Refused(err)
    else if k.wire == FIXED32 then
      if |r| < 4 then Refused(ERR_OK) else Taken(Fixed32Record(k.field), 4)
    else if k.wire == FIXED64 then
      if |r| < 8 then Refused(ERR_OK) else Taken(Fixed64Record(k.field), 8)
    else Refused(ERR_DECODE)
  }

  function TakeRecord(s: seq<byte>): (t: Taken<Record>)
    ensures t.Taken? ==> 1 <= t.size <= |s|
  {
    match TakeKey(s)
    case Taken(k, n) => (
      match TakeBody(k, s[n..])
      case Taken(rec, m) => Taken(rec, n + m)
      case Refused(err) => Refused(err))
    case Refused(err) => Refused(err)
  }

  /** The shift and the mask of out_key: the field number loses all above 29 bits,
      the wire type all above three. */
  lemma KeyShift(field: nat, wire: nat)
    ensures Shl(32, field, 3) == field % TWO_29 * 8 && And(wire, 0x07) == wire % 8
  {
    Pow2Constants();
    ShlSplit(32, field, 3);
    AndMask(wire, 3);
  }

  lemma KeyOr(shifted: nat, wire: nat, f: nat)
    requires wire < 8 && shifted == f * 8
    ensures Or(shifted, wire) == shifted + wire
  {
    assert Pow2(3) == 8;
    OrDisjoint(wire, f, 3);
    OrCommutes(wire, shifted);
  }

  lemma KeyParts(field: nat, wire: nat, key: nat)
    requires field < TWO_29 && wire < 8 && key == Key(field, wire)
    ensures key / 8 == field && key % 8 == wire
  {
  }

  /** The OR of out_key puts the two together. */
  lemma KeyMeaning(field: nat, wire: nat, shifted: nat, masked: nat)
    requires shifted == field % TWO_29 * 8 && masked == wire % 8
    ensures Or(shifted, masked) == Key(field, wire)
  {
    KeyOr(shifted, masked, field % TWO_29);
  }

  lemma {:induction false} OrCommutes(a: nat, b: nat)
    ensures Or(a, b) == Or(b, a)
    decreases a + b
  {
    if a != 0 && b != 0 {
      OrCommutes(a / 2, b / 2);
    }
  }

  /** The shift and mask of get_key. */
  lemma KeySplits(key: nat)
    ensures Shr(key, 3) == key / 8 && And(key, 0x07) == key % 8
  {
    Pow2Constants();
    ShrDivide(key, 3);
    AndMask(key, 3);
  }

  lemma TakeWritten(w: nat, v: nat, rest: seq<byte>)
    requires Width(w) && v < Limit(w)
    ensures TakeVarint(w, EncodeVarint(v) + rest) == Taken(v, |EncodeVarint(v)|)
  {
    RoundTrip(w, v, rest);
  }

  /** The key of a record reads back as its field number and wire type. */
  lemma KeyRoundTrip(field: nat, wire: nat, key: nat, rest: seq<byte>)
    requires field < TWO_29 && wire < 8 && key == Key(field, wire)
    ensures TakeKey(EncodeVarint(key) + rest) == Taken(KeyPair(field, wire), |EncodeVarint(key)|)
  {
    TakeWritten(32, key, rest);
    KeyParts(field, wire, key);
  }

  /** A prefix that reads as the length of the body after it. */
  lemma DelimitedTaken(p: seq<byte>, body: seq<byte>, rest: seq<byte>)
    requires |body| < TWO_31 && TakeVarint(32, p + (body + rest)) == Taken(|body|, |p|)
    ensures TakeDelimited(p + body + rest) == Taken(Span(body), |p + body|)
  {
    assert p + body + rest == p + (body + rest);
    assert (p + (body + rest))[|p|..|p| + |body|] == body;
    ToInt32Small(|body|);
  }

  lemma DelimitedRoundTrip(body: seq<byte>, rest: seq<byte>)
    requires |body| < TWO_31
    ensures TakeDelimited(EncodeVarint(|body|) + body + rest)
         == Taken(Span(body), |EncodeVarint(|body|) + body|)
  {
    TakeWritten(32, |body|, body + rest);
    DelimitedTaken(EncodeVarint(|body|), body, rest);
  }
}
