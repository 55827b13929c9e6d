/** Base 128 varints (Protocol Buffers Documentation, "Encoding", section "Base 128
    Varints"): the byte strings the writer makes, what the reader takes off the
    front of its input, and why the two agree. */
module Varint {
  import opened Bits

  datatype Option<+T> = None | Some(value: T)

  /** A decoded number and how many bytes it took. */
  datatype Token = Token(value: nat, size: nat)

  /** The two instantiations of the C++ templates: uint32_t and uint64_t. */
  predicate Width(w: nat) {
    w == 32 || w == 64
  }

  const TWO_32 := 0x1_0000_0000
  const TWO_64 := 0x1_0000_0000_0000_0000

  /** Largest value, plus one, of a word. */
  function Limit(w: nat): nat
    requires Width(w)
  {
    if w == 32 then TWO_32 else TWO_64
  }

  /** The w-bit word that a number is cut to. */
  function Truncate(w: nat, v: int): (u: nat)
    requires Width(w)
    ensures u < Limit(w)
    ensures 0 <= v < Limit(w) ==> u == v
  {
    if w == 32 then v % TWO_32 else v % TWO_64
  }

  lemma LimitIsPow2(w: nat)
    requires Width(w)
    ensures Limit(w) == Pow2(w)
  {
    Pow2Constants();
  }

  lemma TruncateIsMod(w: nat, v: nat)
    requires Width(w)
    ensures Truncate(w, v) == v % Pow2(w)
  {
    Pow2Constants();
  }

  function EncodeVarint(v: nat): (s: seq<byte>) {
    if v < 128 then [v] else [v % 128 + 128] + EncodeVarint(v / 128)
  }

  /** Number of 7-bit groups of v, at least one. */
  function VarintSize(v: nat): (n: nat) {
    if v < 128 then 1 else 1 + VarintSize(v / 128)
  }

  /** Little-endian base 128 value of the low seven bits of each byte. */
  function Base128(s: seq<byte>): nat {
    if s == [] then 0 else s[0] % 128 + 128 * Base128(s[1..])
  }

  /** One varint and nothing else: only the last byte has its top bit clear. */
  predicate IsVarint(s: seq<byte>) {
    |s| > 0 && s[|s| - 1] < 128 && forall i :: 0 <= i < |s| - 1 ==> s[i] >= 128
  }

  /** How many bytes a reader of width w looks at: 5 or 10. */
  function MaxBytes(w: nat): nat {
    (w + 6) / 7
  }

  /** Length of the varint that starts s, or 0 if none ends within limit bytes. */
  function VarintEnd(s: seq<byte>, limit: nat): (n: nat)
    ensures n <= |s| && n <= limit
  {
    if s == [] || limit == 0 then 0
    else if s[0] < 128 then 1
    else
      var n := VarintEnd(s[1..], limit - 1);
      if n == 0 then 0 else n + 1
  }

  /** What a reader of width w takes off the front of s. */
  function ReadVarint(w: nat, s: seq<byte>): Option<Token>
    requires Width(w)
  {
    var n := VarintEnd(s, MaxBytes(w));
    if n == 0 then None else Some(Token(Truncate(w, Base128(s[..n])), n))
  }

  // ---- lengths ----

  lemma {:induction false} SizeIsLength(v: nat)
    ensures VarintSize(v) == |EncodeVarint(v)|
  {
    if v >= 128 {
      SizeIsLength(v / 128);
    }
  }

  lemma {:induction false} SizeBound(v: nat, n: nat)
    requires n >= 1 && v < Pow2(7 * n)
    ensures VarintSize(v) <= n
  {
    if v >= 128 {
      Pow2Constants();
      assert n > 1;
      Pow2Add(7, 7 * (n - 1));
      SizeBound(v / 128, n - 1);
    }
  }

  lemma WordSize(w: nat, v: nat)
    requires Width(w) && v < Limit(w)
    ensures 1 <= VarintSize(v) <= MaxBytes(w)
  {
    LimitIsPow2(w);
    Pow2Monotone(w, 7 * MaxBytes(w));
    SizeBound(v, MaxBytes(w));
  }

  // ---- the encoder writes varints that mean their argument ----

  lemma {:induction false} EncodeIsVarint(v: nat)
    ensures IsVarint(EncodeVarint(v)) && Base128(EncodeVarint(v)) == v
  {
    if v >= 128 {
      EncodeIsVarint(v / 128);
      assert EncodeVarint(v)[1..] == EncodeVarint(v / 128);
    } else {
      assert EncodeVarint(v)[1..] == [];
    }
  }

  lemma {:induction false} Base128Append(s: seq<byte>, b: byte)
    ensures Base128(s + [b]) == Base128(s) + (b % 128) * Pow2(7 * |s|)
  {
    if s == [] {
      assert (s + [b])[1..] == [];
    } else {
      Base128Append(s[1..], b);
      assert (s + [b])[1..] == s[1..] + [b];
      Pow2Add(7, 7 * (|s| - 1));
      Pow2Constants();
      Horner(s[0] % 128, Base128(s[1..]), b % 128, Pow2(7 * (|s| - 1)));
    }
  }

  lemma Horner(first: nat, rest: nat, d: nat, p: nat)
    ensures first + 128 * (rest + d * p) == (first + 128 * rest) + d * (128 * p)
  {
  }

  lemma {:induction false} Base128Bound(s: seq<byte>)
    ensures Base128(s) < Pow2(7 * |s|)
  {
    if s != [] {
      Base128Bound(s[1..]);
      Pow2Add(7, 7 * (|s| - 1));
      Pow2Constants();
    }
  }

  // ---- the reader ----

  lemma {:induction false} EndOfVarint(s: seq<byte>, limit: nat)
    requires VarintEnd(s, limit) > 0
    ensures IsVarint(s[..VarintEnd(s, limit)])
  {
    if s[0] >= 128 {
      EndOfVarint(s[1..], limit - 1);
      var n := VarintEnd(s[1..], limit - 1);
      assert s[..n + 1] == [s[0]] + s[1..][..n];
    }
  }

  lemma {:induction false} VarintAtFront(c: seq<byte>, rest: seq<byte>, limit: nat)
    requires IsVarint(c) && |c| <= limit
    ensures VarintEnd(c + rest, limit) == |c|
  {
    if |c| > 1 {
      assert c[0] >= 128;
      assert (c + rest)[1..] == c[1..] + rest;
      VarintAtFront(c[1..], rest, limit - 1);
    }
  }

  /** The reader accepts exactly a varint of at most 5 (10) bytes followed by
      anything, and returns its base 128 value modulo 2^w. */
  lemma ReadVarintExactly(w: nat, s: seq<byte>, v: nat, n: nat)
    requires Width(w)
    ensures ReadVarint(w, s) == Some(Token(v, n)) <==>
            && n <= |s| && n <= MaxBytes(w)
            && IsVarint(s[..n]) && v == Truncate(w, Base128(s[..n]))
  {
    if VarintEnd(s, MaxBytes(w)) > 0 {
      EndOfVarint(s, MaxBytes(w));
    }
    if n <= |s| && n <= MaxBytes(w) && IsVarint(s[..n]) {
      VarintAtFront(s[..n], s[n..], MaxBytes(w));
      assert s[..n] + s[n..] == s;
    }
  }

  /** Any varint short enough, whoever wrote it, reads as its value modulo 2^w. */
  lemma ReadAtFront(w: nat, c: seq<byte>, rest: seq<byte>)
    requires Width(w) && IsVarint(c) && |c| <= MaxBytes(w)
    ensures ReadVarint(w, c + rest) == Some(Token(Truncate(w, Base128(c)), |c|))
  {
    assert (c + rest)[..|c|] == c;
    ReadVarintExactly(w, c + rest, Truncate(w, Base128(c)), |c|);
  }

  /** Reading back what was written returns the number, uses exactly the bytes
      written and leaves what follows untouched: for each reader width, whatever
      width wrote it, as long as the number fits the reader. */
  lemma RoundTrip(w: nat, v: nat, rest: seq<byte>)
    requires Width(w) && v < Limit(w)
    ensures ReadVarint(w, EncodeVarint(v) + rest) == Some(Token(v, |EncodeVarint(v)|))
    ensures (EncodeVarint(v) + rest)[|EncodeVarint(v)|..] == rest
  {
    WordSize(w, v);
    SizeIsLength(v);
    EncodeIsVarint(v);
    ReadAtFront(w, EncodeVarint(v), rest);
  }

  /** A number too wide for the reader but short enough comes back truncated. */
  lemma NarrowingRead(v: nat, rest: seq<byte>)
    requires v < 0x8_0000_0000
    ensures ReadVarint(32, EncodeVarint(v) + rest)
         == Some(Token(v % TWO_32, |EncodeVarint(v)|))
  {
    Pow2Add(32, 3);
    Pow2Constants();
    SizeBound(v, 5);
    SizeIsLength(v);
    EncodeIsVarint(v);
    ReadAtFront(32, EncodeVarint(v), rest);
  }

  /** The encoding is the unique shortest varint of its value. */
  lemma {:induction false} Canonical(s: seq<byte>, v: nat)
    requires IsVarint(s) && Base128(s) == v
    ensures |EncodeVarint(v)| <= |s|
    ensures |s| == |EncodeVarint(v)| ==> s == EncodeVarint(v)
  {
    if |s| == 1 {
      assert Base128(s[1..]) == 0;
    } else {
      assert s[0] >= 128;
      assert IsVarint(s[1..]);
      Canonical(s[1..], v / 128);
      assert s == [s[0]] + s[1..];
      if v < 128 {
        EncodeNonEmpty(v / 128);
      }
    }
  }

  lemma EncodeNonEmpty(v: nat)
    ensures |EncodeVarint(v)| >= 1
  {
  }

  /** The written bytes of the small numbers. */
  lemma SmallBytes(v: nat)
    ensures v < 0x80 ==> EncodeVarint(v) == [v]
    ensures 0x80 <= v < 0x4000 ==> EncodeVarint(v) == [0x80 + v % 0x80, v / 0x80]
  {
  }
}
