/** Packed repeated varints (Protocol Buffers Documentation, "Encoding", section
    "Packed Repeated Fields"): out_varpacket, p_varpacket and size_varpacket. */
module Packed {
  import opened Bits
  import opened Varint
  import opened Wire
  import opened Protobuf
  import ZigZag

  /** The element type: int32_t, uint32_t, int64_t or uint64_t, and whether the
      caller asks for zigzag. */
  datatype Element = Element(width: nat, signed: bool, zigzag: bool)

  predicate Valid(e: Element) {
    Width(e.width)
  }

  predicate InRange(e: Element, v: int)
    requires Valid(e)
  {
    if e.signed then 0 - Limit(e.width) <= 2 * v < Limit(e.width) else 0 <= v < Limit(e.width)
  }

  predicate AllInRange(e: Element, vs: seq<int>)
    requires Valid(e)
  {
    forall i :: 0 <= i < |vs| ==> InRange(e, vs[i])
  }

  /** The number written for an element: its word, or the word's zigzag code. */
  function Code(e: Element, v: int): (z: nat)
    requires Valid(e)
    ensures z < Limit(e.width)
  {
    var u := Truncate(e.width, v);
    if e.zigzag then ZigZag.Code(e.width, u) else u
  }

  /** The element a number is read as. */
  function Value(e: Element, z: nat): int
    requires Valid(e) && z < Limit(e.width)
  {
    var u := if e.zigzag then ZigZag.Uncode(e.width, z) else z;
    if e.signed && 2 * u >= Limit(e.width) then u - Limit(e.width) else u
  }

  function Body(e: Element, vs: seq<int>): seq<byte>
    requires Valid(e)
  {
    if vs == [] then [] else EncodeVarint(Code(e, vs[0])) + Body(e, vs[1..])
  }

  function BodySize(e: Element, vs: seq<int>): nat
    requires Valid(e)
  {
    if vs == [] then 0 else VarintSize(Code(e, vs[0])) + BodySize(e, vs[1..])
  }

  /** Reading elements until the cursor is empty. */
  function ReadAll(e: Element, s: seq<byte>): Option<seq<int>>
    requires Valid(e)
    decreases |s|
  {
    if s == [] then Some([])
    else
      match TakeVarint(e.width, s)
      case Taken(z, n) => (
        match ReadAll(e, s[n..])
        case Some(vs) => Some([Value(e, z)] + vs)
        case None => None)
      case _ => None
  }

  /** What out_varpacket appends; nothing for an empty array. */
  function Packet(id: nat, e: Element, vs: seq<int>): seq<byte>
    requires Valid(e)
  {
    if vs == [] then []
    else EncodeVarint(Key(id, DELIMITED)) + EncodeVarint(BodySize(e, vs)) + Body(e, vs)
  }

  lemma ValueOfCode(e: Element, v: int)
    requires Valid(e) && InRange(e, v)
    ensures Value(e, Code(e, v)) == v
  {
    assert Truncate(e.width, v) == if v >= 0 then v else v + Limit(e.width);
  }

  lemma {:induction false} BodyLength(e: Element, vs: seq<int>)
    requires Valid(e)
    ensures |Body(e, vs)| == BodySize(e, vs)
  {
    if vs != [] {
      BodyLength(e, vs[1..]);
      SizeIsLength(Code(e, vs[0]));
    }
  }

  /** Reading the body back gives the array and empties the cursor. */
  lemma {:induction false} BodyReadsBack(e: Element, vs: seq<int>)
    requires Valid(e) && AllInRange(e, vs)
    ensures ReadAll(e, Body(e, vs)) == Some(vs)
  {
    if vs != [] {
      var z, rest := Code(e, vs[0]), Body(e, vs[1..]);
      TakeWritten(e.width, z, rest);
      ValueOfCode(e, vs[0]);
      BodyReadsBack(e, vs[1..]);
      ReadAllStep(e, EncodeVarint(z), z, vs[0], rest, vs[1..]);
      assert [vs[0]] + vs[1..] == vs;
    }
  }

  lemma ReadAllStep(e: Element, c: seq<byte>, z: nat, v: int, rest: seq<byte>, vs: seq<int>)
    requires Valid(e) && z < Limit(e.width) && TakeVarint(e.width, c + rest) == Taken(z, |c|)
    requires Value(e, z) == v && ReadAll(e, rest) == Some(vs)
    ensures ReadAll(e, c + rest) == Some([v] + vs)
  {
    assert (c + rest)[|c|..] == rest;
  }

  /** A whole packet, nothing for an empty array: its size is the announced one, its key and prefix read back,
      and its body is the array. */
  lemma PacketRoundTrip(id: nat, e: Element, vs: seq<int>, rest: seq<byte>)
    requires Valid(e) && AllInRange(e, vs)
    requires id < TWO_29 && BodySize(e, vs) < TWO_31
    ensures vs == [] ==> Packet(id, e, vs) == [] && SizePacket(id, e, vs) == 0
    ensures vs != [] ==>
            var key, p := EncodeVarint(Key(id, DELIMITED)), Packet(id, e, vs);
            && |p| == SizePacket(id, e, vs)
            && TakeKey(p + rest) == Taken(KeyPair(id, DELIMITED), |key|)
            && TakeDelimited((p + rest)[|key|..]) == Taken(Span(Body(e, vs)), |p| - |key|)
            && ReadAll(e, Body(e, vs)) == Some(vs)
  {
    var key, prefix, body := EncodeVarint(Key(id, DELIMITED)), EncodeVarint(BodySize(e, vs)), Body(e, vs);
    BodyLength(e, vs);
    SizeIsLength(Key(id, DELIMITED));
    SizeIsLength(BodySize(e, vs));
    PacketShape(key, prefix, body, rest);
    KeyRoundTrip(id, DELIMITED, Key(id, DELIMITED), prefix + body + rest);
    DelimitedRoundTrip(body, rest);
    BodyReadsBack(e, vs);
  }

  lemma PacketShape(key: seq<byte>, prefix: seq<byte>, body: seq<byte>, rest: seq<byte>)
    ensures key + prefix + body + rest == key + (prefix + body + rest)
    ensures (key + prefix + body + rest)[|key|..] == prefix + body + rest
  {
  }

  /** size_varpacket(id, ...). */
  function SizePacket(id: nat, e: Element, vs: seq<int>): nat
    requires Valid(e)
  {
    if vs == [] then 0
    else VarintSize(Key(id, DELIMITED)) + VarintSize(BodySize(e, vs)) + BodySize(e, vs)
  }

  lemma {:induction false} BodyAppend(e: Element, vs: seq<int>, v: int)
    requires Valid(e)
    ensures Body(e, vs + [v]) == Body(e, vs) + EncodeVarint(Code(e, v))
    ensures BodySize(e, vs + [v]) == BodySize(e, vs) + VarintSize(Code(e, v))
  {
    if vs == [] {
      assert (vs + [v])[1..] == [];
    } else {
      BodyAppend(e, vs[1..], v);
      assert (vs + [v])[1..] == vs[1..] + [v];
    }
  }

  lemma {:induction false} SizeOfMany(e: Element, vs: seq<int>)
    requires Valid(e)
    ensures BodySize(e, vs) <= 10 * |vs|
  {
    if vs != [] {
      SizeOfMany(e, vs[1..]);
      WordSize(e.width, Code(e, vs[0]));
    }
  }

  // ---- the methods ----

  /** size_varpacket(pdata, items): the loop counter is a 32-bit unsigned int. */
  method SizeVarPacket(coder: Coder, e: Element, data: seq<int>) returns (zn: nat)
    requires Valid(e) && |data| < TWO_32
    ensures zn == BodySize(e, data)
  {
    zn := 0;
    var i: uint32 := 0;
    while i < |data|
      invariant 0 <= i <= |data|
      invariant zn == BodySize(e, data[..i])
    {
      var u := Truncate(e.width, data[i]);
      ZigZag.EncodeIsCode(e.width, u);
      var z := coder.SizeVarint(e.width, if e.zigzag then ZigZag.Encode(e.width, u) else u);
      BodyAppend(e, data[..i], data[i]);
      assert data[..i] + [data[i]] == data[..i + 1];
      zn := zn + z;
      i := i + 1;
    }
    assert data[..i] == data;
  }

  method OutVarPacket(coder: Coder, id: nat, e: Element, data: seq<int>, pout: Buffer) returns (ok: bool)
    requires Valid(e) && |data| < TWO_32
    modifies pout
    ensures ok && pout.bytes == old(pout.bytes) + Packet(id, e, data)
  {
    if |data| == 0 {
      return true;
    }
    var zbody := SizeVarPacket(coder, e, data);
    SizeOfMany(e, data);
    ghost var before, key, prefix := pout.bytes, EncodeVarint(Key(id, DELIMITED)), EncodeVarint(zbody);
    ok := coder.OutKey(id, DELIMITED, pout);
    ok := coder.OutVarint(64, zbody, pout);
    Assoc(before, key, prefix);
    ghost var head := key + prefix;
    var i: uint32 := 0;
    while i < |data|
      invariant 0 <= i <= |data|
      invariant pout.bytes == before + (head + Body(e, data[..i]))
    {
      var u := Truncate(e.width, data[i]);
      ZigZag.EncodeIsCode(e.width, u);
      ok := coder.OutVarint(e.width, if e.zigzag then ZigZag.Encode(e.width, u) else u, pout);
      ghost var done, more := Body(e, data[..i]), EncodeVarint(Code(e, data[i]));
      BodyAppend(e, data[..i], data[i]);
      assert data[..i] + [data[i]] == data[..i + 1];
      Assoc(before, head + done, more);
      Assoc(head, done, more);
      i := i + 1;
    }
    assert data[..i] == data;
    return true;
  }

  /** p_varpacket: the next element. */
  method PVarPacket(coder: Coder, e: Element, c: Cursor) returns (ok: bool, out: int)
    requires Valid(e) && c.Valid()
    modifies coder, c
    ensures c.Valid() && c.pd + c.len == old(c.pd + c.len)
    ensures c.pd == old(c.pd) + VarintUsed(e.width, old(c.Rest()))
    ensures match TakeVarint(e.width, old(c.Rest()))
            case Taken(z, n) =>
              ok && out == Value(e, z) && c.pd == old(c.pd) + n && coder.lasterr == old(coder.lasterr)
            case Refused(err) => !ok && coder.Records(old(coder.lasterr), err)
  {
    var v;
    ok, v := coder.GetVarint(e.width, c);
    out := 0;
    if ok {
      ZigZag.DecodeIsUncode(e.width, v);
      var u := if e.zigzag then ZigZag.Decode(e.width, v) else v;
      out := if e.signed && 2 * u >= Limit(e.width) then u - Limit(e.width) else u;
    }
  }
}
