/** The reader and writer primitives as the source runs them: a cursor that moves,
    a buffer that grows, an error code that sticks. */
module Protobuf {
  import opened Bits
  import opened Varint
  import opened Wire
  import Utf8
  import ZigZag

  lemma DropOfSlice(s: seq<byte>, a: nat, b: nat, i: nat)
    requires a + i <= b <= |s|
    ensures s[a..b][i..] == s[a + i..b]
  {
    assert forall k :: 0 <= k < b - a - i ==> s[a..b][i..][k] == s[a + i..b][k];
  }

  /** The pair (pd, len): where the next byte is, and how many are left. */
  class Cursor {
    const data: seq<byte>
    var pd: nat
    var len: int

    constructor (data: seq<byte>, len: int)
      requires len <= |data|
      ensures this.data == data && this.pd == 0 && this.len == len
      ensures Valid()
    {
      this.data := data;
      this.pd := 0;
      this.len := len;
    }

    ghost predicate Valid()
      reads this
    {
      pd + (if len > 0 then len else 0) <= |data|
    }

    /** The bytes still to be read. */
    ghost function Rest(): (s: seq<byte>)
      requires Valid()
      reads this
      ensures len >= 0 ==> |s| == len
    {
      data[pd..pd + (if len > 0 then len else 0)]
    }

    /** The rest, seen from n bytes earlier. */
    lemma RestFrom(start: nat, n: nat, s: seq<byte>)
      requires Valid() && len >= 0 && pd == start + n && s == data[start..pd + len]
      ensures Rest() == s[n..]
    {
      DropOfSlice(data, start, pd + len, n);
    }

    method Advance(n: nat)
      requires Valid() && n <= len
      modifies this
      ensures Valid() && pd == old(pd) + n && len == old(len) - n
      ensures Rest() == old(Rest())[n..]
    {
      pd := pd + n;
      len := len - n;
    }
  }

  /** The byte string the writer appends to. */
  class Buffer {
    var bytes: seq<byte>

    constructor ()
      ensures bytes == []
    {
      bytes := [];
    }

    method PushBack(b: byte)
      modifies this
      ensures bytes == old(bytes) + [b]
    {
      bytes := bytes + [b];
    }

    method Append(s: seq<byte>)
      modifies this
      ensures bytes == old(bytes) + s
    {
      bytes := bytes + s;
    }
  }

  // ---- loop lemmas ----

  /** ORing in d shifted left adds d * 2^k modulo the word. */
  lemma OrShifted(w: nat, v: nat, d: nat, k: nat)
    requires k < w && v < Pow2(k)
    ensures Or(v, Shl(w, d, k)) == (v + d * Pow2(k)) % Pow2(w)
  {
    ShlSplit(w, d, k);
    OrDisjoint(v, d % Pow2(w - k), k);
    AddLow(v, d * Pow2(k), Shl(w, d, k), Pow2(w));
  }

  /** One round of the reader, over the bytes p already read. */
  lemma Accumulate(w: nat, p: seq<byte>, b: byte, out: nat)
    requires 7 * |p| < w && out == Base128(p) % Pow2(w)
    ensures Or(out, Shl(w, b % 128, 7 * |p|)) == Base128(p + [b]) % Pow2(w)
  {
    var k, v := 7 * |p|, Base128(p);
    assert v < Pow2(k) && v == out by {
      Base128Bound(p);
      Pow2Monotone(k, w);
      DivideUnique(v, Pow2(w), 0, v);
    }
    OrShifted(w, v, b % 128, k);
    Base128Append(p, b);
  }

  lemma AddLow(v: nat, x: nat, r: nat, m: nat)
    requires m > 0 && x % m == r && v + r < m
    ensures (v + x) % m == v + r
  {
    DivideUnique(v + x, m, x / m, v + r);
  }

  /** The first n bytes all announce another one. */
  predicate AllMore(s: seq<byte>, n: nat) {
    n <= |s| && forall i :: 0 <= i < n ==> s[i] >= 128
  }

  lemma {:induction false} NoEnd(s: seq<byte>, n: nat, limit: nat)
    requires AllMore(s, n) && (n == |s| || n == limit)
    ensures VarintEnd(s, limit) == 0
  {
    if n > 0 && limit > 0 {
      NoEnd(s[1..], n - 1, limit - 1);
    }
  }

  /** How many bytes a read of width w consumes, whether it succeeds or not. */
  function VarintUsed(w: nat, s: seq<byte>): nat
    requires Width(w)
  {
    match TakeVarint(w, s)
    case Taken(_, n) => n
    case Refused(_) => if |s| < MaxBytes(w) then |s| else MaxBytes(w)
  }

  lemma RunsOut(w: nat, s: seq<byte>, n: nat)
    requires Width(w) && AllMore(s, n) && 0 < n <= MaxBytes(w) && (n == |s| || n == MaxBytes(w))
    ensures TakeVarint(w, s) == Refused(ERR_DECODE)
    ensures VarintUsed(w, s) == n
  {
    NoEnd(s, n, MaxBytes(w));
  }

  lemma EndsAt(w: nat, s: seq<byte>, n: nat)
    requires Width(w) && n < |s| && n < MaxBytes(w) && s[n] < 128 && AllMore(s, n)
    ensures TakeVarint(w, s) == Taken(Prefix(w, s, n + 1), n + 1)
    ensures VarintUsed(w, s) == n + 1
  {
    ReadVarintExactly(w, s, Prefix(w, s, n + 1), n + 1);
  }

  /** The value of the first n bytes in a word of width w. */
  function Prefix(w: nat, s: seq<byte>, n: nat): nat
    requires Width(w) && n <= |s|
  {
    Truncate(w, Base128(s[..n]))
  }

  lemma ReaderStart(w: nat, s: seq<byte>)
    requires Width(w)
    ensures Prefix(w, s, 0) == 0
  {
  }

  /** One round of the reader at the n-th byte b of s. */
  lemma ReaderRound(w: nat, s: seq<byte>, n: nat, b: byte, low: nat, more: nat, nbit: nat)
    requires Width(w) && n < |s| && s[n] == b && nbit == 7 * n < w
    requires low == And(b, 0x7F) && more == And(b, 0x80)
    ensures Or(Prefix(w, s, n), Shl(w, low, nbit)) == Prefix(w, s, n + 1)
    ensures more == 0 <==> b < 128
    ensures AllMore(s, n) && more != 0 ==> AllMore(s, n + 1)
  {
    assert low == b % 128 && (more == 0 <==> b < 128) by {
      ByteMasks(b);
    }
    TruncateIsMod(w, Base128(s[..n]));
    TruncateIsMod(w, Base128(s[..n + 1]));
    Accumulate(w, s[..n], b, Prefix(w, s, n));
    assert s[..n] + [b] == s[..n + 1];
  }

  /** One round of the writer: the low seven bits, and what is left above them. */
  lemma NextGroup(v: nat, nbit: nat, out: nat, rest: nat, marked: nat)
    requires out == And(Shr(v, nbit), 0x7F) && rest == Shr(v, nbit + 7) && marked == Or(out, 0x80)
    ensures out == Shr(v, nbit) % 128 && rest == Shr(v, nbit) / 128 && marked == out + 128
  {
    var x := Shr(v, nbit);
    ShrAdd(v, nbit, 7);
    Shr7(x);
    assert Pow2(7) == 128 by {
      Pow2Constants();
    }
    AndMask(x, 7);
    OrDisjoint(out, 1, 7);
  }

  lemma WriterRound(before: seq<byte>, x: nat, out: byte, rest: nat, marked: byte)
    requires out == x % 128 && rest == x / 128 && marked == out + 128
    ensures rest != 0 ==> before + EncodeVarint(x) == before + [marked] + EncodeVarint(rest)
    ensures rest == 0 ==> before + EncodeVarint(x) == before + [out]
  {
  }

  /** After the last round fewer than eight bits remain. */
  lemma TailGroup(w: nat, v: nat, nbit: nat, tail: nat)
    requires Width(w) && v < Limit(w) && nbit <= w <= nbit + 7 && tail == Shr(v, nbit)
    ensures tail < 128
  {
    LimitIsPow2(w);
    ShrBound(v, w, nbit);
    Pow2Monotone(w - nbit, 7);
    Pow2Constants();
  }

  lemma OneGroup(tail: nat)
    requires tail < 128
    ensures tail % 256 == tail && EncodeVarint(tail) == [tail]
  {
  }

  lemma Assoc(a: seq<byte>, b: seq<byte>, c: seq<byte>)
    ensures (a + b) + c == a + (b + c)
  {
  }

  lemma SliceOfSlice(s: seq<byte>, a: nat, b: nat, i: nat, j: nat)
    requires a <= b <= |s| && i <= j <= b - a
    ensures s[a..b][i..j] == s[a + i..a + j]
  {
    assert forall k :: 0 <= k < j - i ==> s[a..b][i..j][k] == s[a + i..a + j][k];
  }

  /** The bytes of a length-delimited record; an empty body is not written. */
  function ClsBytes(field: nat, body: seq<byte>): seq<byte> {
    if body == [] then []
    else EncodeVarint(Key(field, DELIMITED)) + (EncodeVarint(|body|) + body)
  }

  /** The bytes out_str writes for the buffer of a C++ string. */
  function StrBytes(field: nat, s: seq<byte>): seq<byte> {
    var c := Utf8.CString(s);
    if Utf8.IsText(c) then ClsBytes(field, c) else []
  }

  /** The number that fixed bytes stand for. */
  function LittleEndian(s: seq<byte>): nat {
    if s == [] then 0 else s[0] + 256 * LittleEndian(s[1..])
  }

  /** The first byte counts least. */
  lemma FixedMeans(s: seq<byte>)
    ensures |s| == 4 ==>
            LittleEndian(s) == s[0] as int + 0x100 * (s[1] as int + 0x100 * (s[2] as int + 0x100 * s[3] as int))
    ensures |s| == 8 ==>
            LittleEndian(s) == LittleEndian(s[..4]) + 0x1_0000_0000 * LittleEndian(s[4..])
  {
    if |s| == 4 {
      assert s == [s[0], s[1], s[2], s[3]];
      LittleFour(s[0], s[1], s[2], s[3]);
    } else if |s| == 8 {
      assert s[..4] == [s[0], s[1], s[2], s[3]] && s[4..] == [s[4], s[5], s[6], s[7]];
      LittleFour(s[0], s[1], s[2], s[3]);
      LittleFour(s[4], s[5], s[6], s[7]);
      LittleStep(s);
      LittleStep(s[1..]);
      LittleStep(s[2..]);
      LittleStep(s[3..]);
    }
  }

  lemma LittleStep(s: seq<byte>)
    requires s != []
    ensures LittleEndian(s) == s[0] + 0x100 * LittleEndian(s[1..])
  {
  }

  lemma LittleFour(a: byte, b: byte, c: byte, d: byte)
    ensures LittleEndian([a, b, c, d]) == a as int + 0x100 * (b as int + 0x100 * (c as int + 0x100 * d as int))
  {
    assert [a, b, c, d][1..] == [b, c, d] && [b, c, d][1..] == [c, d] && [c, d][1..] == [d];
    LittleStep([a, b, c, d]);
    LittleStep([b, c, d]);
    LittleStep([c, d]);
    LittleStep([d]);
  }

  /** base_protobuf and msg_protoc3: the primitives share the last error. */
  class Coder {
    var lasterr: int

    constructor ()
      ensures lasterr == ERR_OK
    {
      lasterr := ERR_OK;
    }

    /** The error code after a step that records err, or nothing if it is ERR_OK. */
    ghost predicate Records(before: int, err: int)
      reads this
    {
      lasterr == if err == ERR_OK then before else err
    }

    /** The first half of a round of get_varint: the low seven bits of b go above the
        nbit bits that out has from the n bytes before. */
    method AddGroup(w: nat, b: byte, nbit: nat, out: nat, ghost s: seq<byte>, ghost n: nat)
        returns (more: nat, last: bool)
      requires Width(w) && n < |s| && s[n] == b && nbit == 7 * n < w && out == Prefix(w, s, n)
      ensures more == Prefix(w, s, n + 1) && last == (b < 128)
    {
      var low, high := And(b, 0x7F), And(b, 0x80);
      ReaderRound(w, s, n, b, low, high, nbit);
      return Or(out, Shl(w, low, nbit)), high == 0;
    }

    /** get_varint.  A failing read still consumes the bytes it looked at. */
    method GetVarint(w: nat, c: Cursor) returns (ok: bool, out: nat)
      requires Width(w) && c.Valid()
      modifies this, c
      ensures c.Valid() && c.pd + c.len == old(c.pd + c.len)
      ensures var s, t := old(c.Rest()), TakeVarint(w, old(c.Rest()));
              && ok == t.Taken? && (ok ==> out == t.value)
              && c.pd == old(c.pd) + VarintUsed(w, s)
              && lasterr == if t.Refused? && t.err != ERR_OK then t.err else old(lasterr)
    {
      if c.len <= 0 {
        return false, 0;
      }
      ghost var s, start := c.Rest(), c.pd;
      assert s == c.data[start..start + |s|];
      var nbit := 0;
      ghost var n := 0;
      out := 0;
      ReaderStart(w, s);
      while true
        invariant 0 <= n < |s| && n < MaxBytes(w) && nbit == 7 * n
        invariant c.pd == start + n && c.len == |s| - n && lasterr == old(lasterr)
        invariant AllMore(s, n)
        invariant out == Prefix(w, s, n)
        decreases c.len
      {
        var b := c.data[c.pd];
        assert b == s[n];
        var last;
        out, last := AddGroup(w, b, nbit, out, s, n);
        c.pd, c.len := c.pd + 1, c.len - 1;
        n := n + 1;
        if last {
          EndsAt(w, s, n - 1);
          return true, out;
        }
        nbit := nbit + 7;
        if !(c.len > 0 && nbit < w) {
          break;
        }
      }
      RunsOut(w, s, n);
      lasterr := ERR_DECODE;
      return false, out;
    }

    /** out_varint, with its loop bound nbit + 7 < width and its tail byte. */
    method OutVarint(w: nat, v: nat, pout: Buffer) returns (ok: bool)
      requires Width(w) && v < Limit(w)
      modifies pout
      ensures ok && pout.bytes == old(pout.bytes) + EncodeVarint(v)
    {
      ghost var whole := pout.bytes + EncodeVarint(v);
      var nbit := 0;
      var out: byte := 0;
      while true
        invariant 0 <= nbit && nbit + 7 <= w
        invariant pout.bytes + EncodeVarint(Shr(v, nbit)) == whole
        decreases w - nbit
      {
        ghost var x := Shr(v, nbit);
        var low := And(Shr(v, nbit), 0x7F);
        nbit := nbit + 7;
        var rest := Shr(v, nbit);
        ghost var marked := Or(low, 0x80);
        NextGroup(v, nbit - 7, low, rest, marked);
        out := low;
        WriterRound(pout.bytes, x, out, rest, marked);
        if rest != 0 {
          out := Or(out, 0x80);
          pout.PushBack(out);
        } else {
          pout.PushBack(out);
          break;
        }
        if !(nbit + 7 < w) {
          break;
        }
      }
      var tail := Shr(v, nbit);
      if tail != 0 {
        TailGroup(w, v, nbit, tail);
        OneGroup(tail);
        pout.PushBack(tail % 256);
      }
      return true;
    }

    /** get_key. */
    method GetKey(c: Cursor) returns (ok: bool, field: nat, wire: nat)
      requires c.Valid()
      modifies this, c
      ensures c.Valid() && c.pd + c.len == old(c.pd + c.len)
      ensures c.pd == old(c.pd) + VarintUsed(32, old(c.Rest()))
      ensures match TakeKey(old(c.Rest()))
              case Taken(k, n) =>
                ok && field == k.field && wire == k.wire
                && c.pd == old(c.pd) + n && lasterr == old(lasterr)
              case Refused(err) => !ok && Records(old(lasterr), err)
    {
      var key;
      ok, key := GetVarint(32, c);
      KeySplits(key);
      wire := And(key, 0x07);
      field := Shr(key, 3);
    }

    /** get_length_delimited.  The result stray says that the length prefix ul was
        2^31 or more: the cursor then leaves the input, and len is what the
        subtraction modulo 2^32 makes of it. */
    method GetLengthDelimited(c: Cursor) returns (ok: bool, stray: bool, body: seq<byte>)
      requires c.Valid()
      modifies this, c
      ensures !stray ==> c.Valid() && c.pd + c.len == old(c.pd + c.len)
      ensures match TakeDelimited(old(c.Rest()))
              case Taken(Span(b), n) =>
                ok && !stray && body == b && c.pd == old(c.pd) + n && lasterr == old(lasterr)
              case Taken(Stray(ul), n) =>
                ok && stray && c.pd == old(c.pd) + n + ul && c.len == ToInt32(old(c.len) - n - ul)
                && lasterr == old(lasterr)
              case Refused(err) =>
                !ok && !stray && c.pd == old(c.pd) + VarintUsed(32, old(c.Rest())) && Records(old(lasterr), err)
    {
      ghost var s, start := c.Rest(), c.pd;
      var ul;
      body := [];
      ok, ul := GetVarint(32, c);
      if !ok {
        return false, false, body;
      }
      ghost var n := VarintUsed(32, s);
      assert c.pd == start + n && c.len == |s| - n;
      if c.len < ToInt32(ul) {
        lasterr := ERR_DECODE;
        return false, false, body;
      }
      if ul >= TWO_31 {
        c.pd := c.pd + ul;
        c.len := ToInt32(c.len - ul);
        return true, true, body;
      }
      ToInt32Small(ul);
      body := c.data[c.pd..c.pd + ul];
      SliceOfSlice(c.data, start, start + |s|, n, n + ul);
      c.pd, c.len := c.pd + ul, c.len - ul;
      return true, false, body;
    }

    /** get_fixed for a value of n bytes. */
    method GetFixed(n: nat, c: Cursor) returns (ok: bool, out: nat)
      requires c.Valid() && n > 0
      modifies c
      ensures c.Valid() && c.pd + c.len == old(c.pd + c.len)
      ensures ok == (|old(c.Rest())| >= n) && c.pd == old(c.pd) + (if ok then n else 0)
      ensures ok ==> out == LittleEndian(old(c.Rest())[..n])
    {
      if c.len < n {
        return false, 0;
      }
      out := LittleEndian(c.data[c.pd..c.pd + n]);
      SliceOfSlice(c.data, c.pd, c.pd + c.len, 0, n);
      c.Advance(n);
      return true, out;
    }

    /** out_key. */
    method OutKey(field: nat, wire: nat, pout: Buffer) returns (ok: bool)
      modifies pout
      ensures ok && pout.bytes == old(pout.bytes) + EncodeVarint(Key(field, wire))
    {
      var shifted, masked := Shl(32, field, 3), And(wire, 0x07);
      KeyShift(field, wire);
      KeyMeaning(field, wire, shifted, masked);
      ok := OutVarint(32, Or(shifted, masked), pout);
    }

    /** out_length_delimited. */
    method OutLengthDelimited(body: seq<byte>, pout: Buffer) returns (ok: bool)
      requires |body| < TWO_64
      modifies pout
      ensures ok && pout.bytes == old(pout.bytes) + (EncodeVarint(|body|) + body)
    {
      ok := OutVarint(64, |body|, pout);
      pout.Append(body);
    }

    /** out_var with zigzag, for a uint32_t. */
    method OutZigZag32(field: nat, u: nat, pout: Buffer) returns (ok: bool)
      requires u < TWO_32
      modifies pout
      ensures ok && pout.bytes == old(pout.bytes)
                  + (EncodeVarint(Key(field, VARINT)) + EncodeVarint(ZigZag.Code(32, u)))
    {
      ZigZag.EncodeIsCode(32, u);
      ok := OutKey(field, VARINT, pout);
      ok := OutVarint(32, ZigZag.Encode(32, u), pout);
    }

    /** out_str on c_str(): nothing for an empty string, an error for text that
        isutf8 refuses. */
    method OutStr(field: nat, s: seq<byte>, pout: Buffer) returns (ok: bool)
      requires |s| < TWO_64
      modifies this, pout
      ensures ok == Utf8.IsText(Utf8.CString(s))
      ensures pout.bytes == old(pout.bytes) + StrBytes(field, s)
      ensures lasterr == if ok then old(lasterr) else ERR_NOT_UTF8
    {
      if s == [] || s[0] == 0 {
        return true;
      }
      var valid := Utf8.IsUtf8(s, 0);
      if !valid {
        lasterr := ERR_NOT_UTF8;
        return false;
      }
      ghost var before, text := pout.bytes, Utf8.CString(s);
      ok := OutKey(field, DELIMITED, pout);
      ok := OutLengthDelimited(Utf8.CString(s), pout);
      Assoc(before, EncodeVarint(Key(field, DELIMITED)), EncodeVarint(|text|) + text);
    }

    /** out_cls. */
    method OutCls(field: nat, body: seq<byte>, pout: Buffer) returns (ok: bool)
      requires |body| < TWO_64
      modifies pout
      ensures ok && pout.bytes == old(pout.bytes) + ClsBytes(field, body)
    {
      if |body| == 0 {
        return true;
      }
      ghost var before := pout.bytes;
      ok := OutKey(field, DELIMITED, pout);
      ok := OutLengthDelimited(body, pout);
      Assoc(before, EncodeVarint(Key(field, DELIMITED)), EncodeVarint(|body|) + body);
    }

    /** size_varint, the same loop counting instead of writing. */
    method SizeVarint(w: nat, v: nat) returns (zret: nat)
      requires Width(w) && v < Limit(w)
      ensures zret == VarintSize(v)
    {
      var nbit := 0;
      zret := 0;
      while true
        invariant 0 <= nbit < w && nbit + 7 <= w
        invariant zret + VarintSize(Shr(v, nbit)) == VarintSize(v)
        decreases w - nbit
      {
        ShrAdd(v, nbit, 7);
        Shr7(Shr(v, nbit));
        nbit := nbit + 7;
        zret := zret + 1;
        if Shr(v, nbit) == 0 {
          break;
        }
        if !(nbit + 7 < w) {
          break;
        }
      }
      if Shr(v, nbit) != 0 {
        TailGroup(w, v, nbit, Shr(v, nbit));
        zret := zret + 1;
      }
    }
  }
}
