/** The zigzag codes of t_zigzag (Protocol Buffers Documentation, "Encoding",
    section "Signed Integers"), written with the source's shifts and XORs on
    w-bit patterns. */
module ZigZag {
  import opened Bits
  import opened Varint

  function Encode(w: nat, u: nat): (z: nat)
    requires w > 0
  {
    Xor(Shl(w, u, 1), Sar(w, u, w - 1))
  }

  function Decode(w: nat, z: nat): (u: nat) {
    Xor(Shr(z, 1), Unsigned(w, 0 - And(z, 1)))
  }

  /** The code as a number: even for the non-negative patterns, odd for the others. */
  function Code(w: nat, u: nat): (z: nat)
    requires Width(w) && u < Limit(w)
    ensures z < Limit(w)
  {
    if 2 * u < Limit(w) then 2 * u else 2 * (Limit(w) - u) - 1
  }

  function Uncode(w: nat, z: nat): (u: nat)
    requires Width(w) && z < Limit(w)
    ensures u < Limit(w)
  {
    if z % 2 == 0 then z / 2 else Limit(w) - 1 - z / 2
  }

  /** Wrapping into w bits adds 2^w to a negative number. */
  lemma Wrap(w: nat, v: int)
    requires 0 - Pow2(w) <= v < Pow2(w)
    ensures Unsigned(w, v) == if v >= 0 then v else v + Pow2(w)
  {
    if v >= 0 {
      DivideUnique(v, Pow2(w), 0, v);
    } else {
      DivideUnique(v, Pow2(w), -1, v + Pow2(w));
    }
  }

  lemma SignMask(w: nat, u: nat)
    requires w > 0 && u < Pow2(w)
    ensures Sar(w, u, w - 1) == if u < Pow2(w - 1) then 0 else Pow2(w) - 1
  {
    var h := Pow2(w - 1);
    assert Pow2(w) == 2 * h;
    if u < h {
      DivideUnique(u, h, 0, u);
      Wrap(w, 0);
    } else {
      DivideUnique(u - 2 * h, h, -1, u - h);
      Wrap(w, -1);
    }
  }

  /** The code of a non-negative v is 2v, of a negative one -2v-1. */
  lemma EncodeMeaning(w: nat, v: int)
    requires w > 0 && 0 - Pow2(w - 1) <= v < Pow2(w - 1)
    ensures Encode(w, Unsigned(w, v)) == (if v >= 0 then 2 * v else -2 * v - 1) < Pow2(w)
  {
    var h := Pow2(w - 1);
    assert Pow2(w) == 2 * h;
    var u := Unsigned(w, v);
    if v >= 0 {
      Wrap(w, v);
      SignMask(w, u);
      DivideUnique(2 * v, 2 * h, 0, 2 * v);
    } else {
      Wrap(w, v);
      SignMask(w, u);
      var d := 2 * v + 2 * h;
      DivideUnique(2 * u, 2 * h, 1, d);
      XorOnes(d, w);
    }
    assert Pow2(1) == 2;
  }

  lemma DecodeMeaning(w: nat, z: nat)
    requires w > 0 && z < Pow2(w)
    ensures Decode(w, z) == Unsigned(w, if z % 2 == 0 then z / 2 else -1 - z / 2)
  {
    assert Pow2(w) == 2 * Pow2(w - 1) && Pow2(1) == 2;
    AndMask(z, 1);
    ShrDivide(z, 1);
    Wrap(w, 0 - z % 2);
    if z % 2 == 0 {
      Wrap(w, z / 2);
      OrZero(z / 2);
    } else {
      XorOnes(z / 2, w);
      Wrap(w, -1 - z / 2);
    }
  }

  lemma SignedUnsigned(w: nat, u: nat)
    requires w > 0 && u < Pow2(w)
    ensures 0 - Pow2(w - 1) <= Signed(w, u) < Pow2(w - 1)
    ensures Unsigned(w, Signed(w, u)) == u
  {
    assert Pow2(w) == 2 * Pow2(w - 1);
    Wrap(w, Signed(w, u));
  }

  /** Decoding undoes encoding, on every pattern. */
  lemma DecodeEncode(w: nat, u: nat, z: nat)
    requires w > 0 && u < Pow2(w) && z == Encode(w, u)
    ensures z < Pow2(w) && Decode(w, z) == u
  {
    var v := Signed(w, u);
    assert Unsigned(w, v) == u && z < Pow2(w) && z == if v >= 0 then 2 * v else -2 * v - 1 by {
      SignedUnsigned(w, u);
      EncodeMeaning(w, v);
    }
    DecodeMeaning(w, z);
    assert v == if z % 2 == 0 then z / 2 else -1 - z / 2;
  }

  /** Encoding undoes decoding, on every code. */
  lemma EncodeDecode(w: nat, z: nat, u: nat)
    requires w > 0 && z < Pow2(w) && u == Decode(w, z)
    ensures u < Pow2(w) && Encode(w, u) == z
  {
    assert Pow2(w) == 2 * Pow2(w - 1);
    DecodeMeaning(w, z);
    EncodeMeaning(w, if z % 2 == 0 then z / 2 else -1 - z / 2);
  }

  /** The shift and XOR form computes the code. */
  lemma EncodeIsCode(w: nat, u: nat)
    requires Width(w) && u < Limit(w)
    ensures Encode(w, u) == Code(w, u)
  {
    LimitIsPow2(w);
    SignedUnsigned(w, u);
    EncodeMeaning(w, Signed(w, u));
    assert Pow2(w) == 2 * Pow2(w - 1);
  }

  lemma DecodeIsUncode(w: nat, z: nat)
    requires Width(w) && z < Limit(w)
    ensures Decode(w, z) == Uncode(w, z)
  {
    LimitIsPow2(w);
    DecodeMeaning(w, z);
    assert Pow2(w) == 2 * Pow2(w - 1);
    Wrap(w, if z % 2 == 0 then z / 2 else -1 - z / 2);
  }

  /** Zero is the only pattern equal to its own code, at either width. */
  lemma FixedPoint(w: nat, u: nat)
    requires Width(w) && u < Limit(w)
    ensures Encode(w, u) == u <==> u == 0
  {
    EncodeIsCode(w, u);
  }
}
