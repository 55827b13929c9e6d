/** The CastMessage object: fields, callbacks, parse and serialize. */
module CastChannel {
  import opened Bits
  import opened Varint
  import opened Wire
  import opened Protobuf
  import opened Messages
  import Sizes
  import Utf8
  import ZigZag

  class CastMessage {
    const coder: Coder
    var protocolVersion: uint32
    var sourceId: seq<byte>
    var destinationId: seq<byte>
    var namespace: seq<byte>
    var payloadType: uint32
    var payloadUtf8: seq<byte>
    var payloadBinary: seq<byte>

    constructor ()
      ensures Value() == EMPTY && fresh(coder) && coder.lasterr == ERR_OK
    {
      coder := new Coder();
      protocolVersion, payloadType := 0, 0;
      sourceId, destinationId, namespace := [], [], [];
      payloadUtf8, payloadBinary := [], [];
    }

    function Value(): Message
      reads this
    {
      Message(protocolVersion, sourceId, destinationId, namespace,
              payloadType, payloadUtf8, payloadBinary)
    }

    method Reset()
      modifies this
      ensures Value() == EMPTY
    {
      protocolVersion, payloadType := 0, 0;
      sourceId, destinationId, namespace := [], [], [];
      payloadUtf8, payloadBinary := [], [];
    }

    method OnCls(field: nat, body: seq<byte>) returns (ok: bool)
      modifies this
      ensures ok == Apply(old(Value()), BodyRecord(field, body)).Some?
      ensures Value() == if ok then Apply(old(Value()), BodyRecord(field, body)).value else old(Value())
    {
      if field == SOURCE_ID {
        sourceId := body;
      } else if field == DESTINATION_ID {
        destinationId := body;
      } else if field == NAMESPACE {
        namespace := body;
      } else if field == PAYLOAD_UTF8 {
        payloadUtf8 := body;
      } else if field == PAYLOAD_BINARY {
        payloadBinary := body;
      } else {
        return false;
      }
      return true;
    }

    method OnVar(field: nat, val: nat) returns (ok: bool)
      modifies this
      ensures ok == Apply(old(Value()), VarRecord(field, val)).Some?
      ensures Value() == if ok then Apply(old(Value()), VarRecord(field, val)).value else old(Value())
    {
      if field == PROTOCOL_VERSION {
        protocolVersion := val % TWO_32;
      } else if field == PAYLOAD_TYPE {
        payloadType := val % TWO_32;
      } else {
        return false;
      }
      return true;
    }

    method OnFix32(field: nat) returns (ok: bool)
      ensures ok == Apply(Value(), Fixed32Record(field)).Some?
    {
      return false;
    }

    method OnFix64(field: nat) returns (ok: bool)
      ensures ok && Apply(Value(), Fixed64Record(field)) == Some(Value())
    {
      return true;
    }

    /** The state after parse stops with p, the error code having been before. */
    ghost predicate Halted(verdict: Verdict, p: Parsed, before: int)
      reads this, coder
    {
      verdict == p.verdict && verdict != Accepted && Value() == p.message && coder.Records(before, p.err)
    }

    /** The switch of parse: reads what follows the key and calls the callback. */
    method ReadBody(c: Cursor, field: nat, wire: nat) returns (verdict: Verdict)
      requires c.Valid()
      modifies this, coder, c
      ensures verdict == Accepted ==> c.Valid() && c.pd + c.len == old(c.pd + c.len)
      ensures match StepOf(old(Value()), TakeBody(KeyPair(field, wire), old(c.Rest())))
              case Onward(m, n) =>
                && verdict == Accepted && Value() == m
                && c.pd == old(c.pd) + n && coder.lasterr == old(coder.lasterr)
              case Halt(p) => Halted(verdict, p, old(coder.lasterr))
    {
      var ok, stray, val, body := true, false, 0, [];
      var fixed;
      if wire == VARINT {
        ok, val := coder.GetVarint(64, c);
        if ok {
          ok := OnVar(field, val);
        }
      } else if wire == DELIMITED {
        ok, stray, body := coder.GetLengthDelimited(c);
        if stray {
          // on_cls refuses the other fields without looking at the body
          return if ClsField(field) then Strayed else Rejected;
        }
        if ok {
          ok := OnCls(field, body);
        }
      } else if wire == FIXED32 {
        ok, fixed := coder.GetFixed(4, c);
        if ok {
          ok := OnFix32(field);
        }
      } else if wire == FIXED64 {
        ok, fixed := coder.GetFixed(8, c);
        if ok {
          ok := OnFix64(field);
        }
      } else {
        // jump_over knows none of the remaining wire types
        coder.lasterr := ERR_DECODE;
        ok := false;
      }
      return if ok then Accepted else Rejected;
    }

    /** The body of parse's loop: one key and what it announces. */
    method ParseRecord(c: Cursor) returns (verdict: Verdict)
      requires c.Valid()
      modifies this, coder, c
      ensures verdict == Accepted ==> c.Valid() && c.pd + c.len == old(c.pd + c.len)
      ensures match StepOf(old(Value()), TakeRecord(old(c.Rest())))
              case Onward(m, n) =>
                && verdict == Accepted && Value() == m
                && c.pd == old(c.pd) + n && coder.lasterr == old(coder.lasterr)
              case Halt(p) => Halted(verdict, p, old(coder.lasterr))
    {
      ghost var s, start := c.Rest(), c.pd;
      var ok, field, wire := coder.GetKey(c);
      if !ok {
        return Rejected;
      }
      ghost var n := c.pd - start;
      c.RestFrom(start, n, s);
      StepAfterKey(Value(), s, KeyPair(field, wire), n);
      verdict := ReadBody(c, field, wire);
    }

    /** What parse leaves: the verdict, the fields and the error code. */
    ghost predicate Ended(verdict: Verdict, p: Parsed)
      reads this, coder
    {
      verdict == p.verdict && Value() == p.message && coder.lasterr == p.err
    }

    /** parse. */
    method Parse(data: seq<byte>) returns (verdict: Verdict)
      modifies this, coder
      ensures Ended(verdict, Messages.Parse(data))
    {
      coder.lasterr := ERR_OK;
      Reset();
      if |data| == 0 {
        return Accepted;
      }
      ghost var expected := Messages.Parse(data);
      var c := new Cursor(data, ToInt32(|data|));
      while true
        invariant fresh(c) && c.Valid() && c.pd + c.len == ToInt32(|data|)
        invariant coder.lasterr == ERR_OK
        invariant c.len > 0 ==> ParseRecords(Value(), c.Rest()) == expected
        invariant c.len <= 0 ==> expected == Parsed(Rejected, Value(), ERR_OK)
        decreases c.len
      {
        ghost var s, start, step := c.Rest(), c.pd, StepOf(Value(), TakeRecord(c.Rest()));
        if c.len > 0 {
          ParseRound(Value(), s, step);
          assert s == data[start..start + c.len];
        }
        verdict := ParseRecord(c);
        if verdict != Accepted {
          return;
        }
        c.RestFrom(start, step.used, s);
        if !(c.len > 0) {
          break;
        }
      }
      return if c.len == 0 then Accepted else Rejected;
    }

    /** size_key. */
    method KeySize(field: nat, wire: nat) returns (z: nat)
      ensures z == SizeKey(field, wire)
    {
      var shifted, masked := Shl(32, field, 3), And(wire, 0x07);
      KeyShift(field, wire);
      KeyMeaning(field, wire, shifted, masked);
      z := coder.SizeVarint(32, Or(shifted, masked));
    }

    /** size_length_delimited. */
    method LengthDelimitedSize(len: nat) returns (z: nat)
      requires len < TWO_64
      ensures z == SizeLengthDelimited(len)
    {
      if len == 0 {
        return 0;
      }
      z := coder.SizeVarint(64, len);
      z := z + len;
    }

    /** size_var with zigzag, for a uint32_t. */
    method VarSize(field: nat, u: uint32) returns (z: nat)
      ensures z == SizeVar(field, u)
    {
      ZigZag.EncodeIsCode(32, u);
      z := KeySize(field, VARINT);
      var n := coder.SizeVarint(32, ZigZag.Encode(32, u));
      z := z + n;
    }

    /** size_cls. */
    method ClsSize(field: nat, size: nat) returns (z: nat)
      requires size < TWO_64
      ensures z == SizeCls(field, size)
    {
      if size == 0 {
        return 0;
      }
      z := KeySize(field, DELIMITED);
      var n := LengthDelimitedSize(size);
      z := z + n;
    }

    /** size_str on c_str(), measured with strlen. */
    method StrSize(field: nat, s: seq<byte>) returns (z: nat)
      requires |s| < TWO_64
      ensures z == SizeStr(field, s)
    {
      if s == [] || s[0] == 0 {
        return 0;
      }
      z := ClsSize(field, |Utf8.CString(s)|);
    }

    /** size_content, and size() which returns it. */
    method Size() returns (z: nat)
      requires Storable(Value())
      ensures z == SizeContent(Value())
    {
      var protocol := VarSize(PROTOCOL_VERSION, protocolVersion);
      var source := StrSize(SOURCE_ID, sourceId);
      var destination := StrSize(DESTINATION_ID, destinationId);
      var ns := StrSize(NAMESPACE, namespace);
      var kind := VarSize(PAYLOAD_TYPE, payloadType);
      var text := StrSize(PAYLOAD_UTF8, payloadUtf8);
      var binary := ClsSize(PAYLOAD_BINARY, |payloadBinary|);
      return protocol + source + destination + ns + kind + text + binary;
    }

    /** The operands of the sum in out_content, in either order: true unless both
        fail. */
    method OutAddress(pout: Buffer, destinationFirst: bool) returns (ok: bool)
      requires Storable(Value())
      modifies coder, pout
      ensures ok == (IsTextField(destinationId) || IsTextField(namespace))
      ensures pout.bytes == old(pout.bytes) + AddressBytes(Value(), destinationFirst)
      ensures coder.lasterr == if IsTextField(destinationId) && IsTextField(namespace)
                               then old(coder.lasterr) else ERR_NOT_UTF8
    {
      var d, n;
      ghost var db, nb := StrBytes(DESTINATION_ID, destinationId), StrBytes(NAMESPACE, namespace);
      Assoc(pout.bytes, db, nb);
      Assoc(pout.bytes, nb, db);
      if destinationFirst {
        d := coder.OutStr(DESTINATION_ID, destinationId, pout);
        n := coder.OutStr(NAMESPACE, namespace, pout);
      } else {
        n := coder.OutStr(NAMESPACE, namespace, pout);
        d := coder.OutStr(DESTINATION_ID, destinationId, pout);
      }
      return (if d then 1 else 0) + (if n then 1 else 0) != 0;
    }

    /** out_content. */
    method OutContent(pout: Buffer, destinationFirst: bool) returns (ok: bool)
      requires Storable(Value())
      modifies coder, pout
      ensures var w := Content(Value(), destinationFirst);
              && ok == w.ok && pout.bytes == old(pout.bytes) + w.bytes
              && coder.Records(old(coder.lasterr), w.err)
    {
      ghost var before, v := pout.bytes, Value();
      ghost var head := VarBytes(PROTOCOL_VERSION, v.protocolVersion);
      ghost var src := StrBytes(SOURCE_ID, v.sourceId);
      ghost var address := AddressBytes(v, destinationFirst);
      ghost var kind := VarBytes(PAYLOAD_TYPE, v.payloadType);
      ghost var text := StrBytes(PAYLOAD_UTF8, v.payloadUtf8);
      ghost var bin := ClsBytes(PAYLOAD_BINARY, v.payloadBinary);
      ok := coder.OutZigZag32(PROTOCOL_VERSION, protocolVersion, pout);
      ok := coder.OutStr(SOURCE_ID, sourceId, pout);
      Assoc(before, head, src);
      if !ok {
        return;
      }
      ok := OutAddress(pout, destinationFirst);
      Assoc(before, head + src, address);
      if !ok {
        return;
      }
      ok := coder.OutZigZag32(PAYLOAD_TYPE, payloadType, pout);
      ok := coder.OutStr(PAYLOAD_UTF8, payloadUtf8, pout);
      Assoc(before, head + src + address, kind);
      Assoc(before, head + src + address + kind, text);
      if !ok {
        return;
      }
      ok := coder.OutCls(PAYLOAD_BINARY, payloadBinary, pout);
      Assoc(before, head + src + address + kind + text, bin);
    }

    /** serialize(pout). */
    method Serialize(pout: Buffer, destinationFirst: bool) returns (ok: bool)
      requires Storable(Value())
      modifies coder, pout
      ensures var w := Content(Value(), destinationFirst);
              ok == w.ok && pout.bytes == old(pout.bytes) + w.bytes && coder.lasterr == w.err
    {
      coder.lasterr := ERR_OK;
      ok := OutContent(pout, destinationFirst);
    }

    /** serialize(id, pout): nothing for an empty message, else key, size, content. */
    method SerializeNested(id: nat, pout: Buffer, destinationFirst: bool) returns (ok: bool)
      requires Storable(Value())
      modifies coder, pout
      ensures var w := Sizes.Nested(id, Value(), destinationFirst);
              ok == w.ok && pout.bytes == old(pout.bytes) + w.bytes && coder.lasterr == w.err
    {
      coder.lasterr := ERR_OK;
      var sizebody := Size();
      Sizes.SizeAgreement(Value(), destinationFirst);
      Sizes.ContentFits(Value());
      if sizebody == 0 {
        return true;
      }
      ghost var before, key, prefix := pout.bytes, EncodeVarint(Key(id, DELIMITED)), EncodeVarint(sizebody);
      ok := coder.OutKey(id, DELIMITED, pout);
      ok := coder.OutVarint(64, sizebody, pout);
      Assoc(before, key, prefix);
      ok := OutContent(pout, destinationFirst);
      Assoc(before, key + prefix, Content(Value(), destinationFirst).bytes);
    }
  }
}
