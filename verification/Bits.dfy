/** Machine words as natural numbers.  Bitwise operators are defined one bit at
    a time; the lemmas give the arithmetic meaning of the masks, shifts and ORs
    that the codec uses. */
module Bits {

  type byte = b: int | 0 <= b < 256

  function Pow2(n: nat): (p: nat)
    ensures p >= 1
  {
    if n == 0 then 1 else 2 * Pow2(n - 1)
  }

  function And(a: nat, b: nat): nat {
    if a == 0 || b == 0 then 0
    else (if a % 2 == 1 && b % 2 == 1 then 1 else 0) + 2 * And(a / 2, b / 2)
  }

  function Or(a: nat, b: nat): nat
    decreases a + b
  {
    if a == 0 then b else if b == 0 then a
    else (if a % 2 == 1 || b % 2 == 1 then 1 else 0) + 2 * Or(a / 2, b / 2)
  }

  function Xor(a: nat, b: nat): nat
    decreases a + b
  {
    if a == 0 then b else if b == 0 then a
    else (if a % 2 != b % 2 then 1 else 0) + 2 * Xor(a / 2, b / 2)
  }

  /** Logical shift right by n bits. */
  function Shr(a: nat, n: nat): nat {
    if n == 0 then a else Shr(a / 2, n - 1)
  }

  /** Shift left by n bits in a word of width w. */
  function Shl(w: nat, a: nat, n: nat): nat {
    (a * Pow2(n)) % Pow2(w)
  }

  /** The two's complement reading of a w-bit pattern. */
  function Signed(w: nat, u: nat): int
    requires w > 0
  {
    if u < Pow2(w - 1) then u else u - Pow2(w)
  }

  /** The w-bit pattern of an integer. */
  function Unsigned(w: nat, v: int): (u: nat)
    ensures u < Pow2(w)
  {
    v % Pow2(w)
  }

  /** Arithmetic shift right by n bits in a signed word of width w. */
  function Sar(w: nat, u: nat, n: nat): nat
    requires w > 0
  {
    Unsigned(w, Signed(w, u) / Pow2(n))
  }

  lemma {:induction false} Pow2Add(a: nat, b: nat)
    ensures Pow2(a + b) == Pow2(a) * Pow2(b)
  {
    if a == 0 {
    } else {
      Pow2Add(a - 1, b);
    }
  }

  lemma {:induction false} Pow2Monotone(a: nat, b: nat)
    requires a <= b
    ensures Pow2(a) <= Pow2(b)
  {
    if a < b {
      Pow2Monotone(a, b - 1);
    }
  }

  lemma Pow2Constants()
    ensures Pow2(3) == 8 && Pow2(6) == 64 && Pow2(7) == 128 && Pow2(8) == 256
    ensures Pow2(29) == 0x2000_0000 && Pow2(31) == 0x8000_0000 && Pow2(32) == 0x1_0000_0000
    ensures Pow2(63) == 0x8000_0000_0000_0000 && Pow2(64) == 0x1_0000_0000_0000_0000
  {
    assert Pow2(8) == 256;
    Pow2Add(8, 8);
    Pow2Add(16, 13);
    assert Pow2(13) == 32 * Pow2(8);
    assert Pow2(31) == 4 * Pow2(29);
    Pow2Add(32, 31);
    assert Pow2(32) == 2 * Pow2(31) && Pow2(64) == 2 * Pow2(63);
  }

  lemma DivideUnique(x: int, m: int, q: int, r: int)
    requires 0 < m && 0 <= r < m && x == m * q + r
    ensures x / m == q && x % m == r
  {
    var d := x / m - q;
    assert m * d == r - x % m;
    assert d >= 1 ==> m * d >= m;
    assert d <= -1 ==> m * d <= -m;
  }

  lemma MulDouble(m: int, p: int)
    ensures m * (2 * p) == 2 * (m * p)
    ensures m * (2 * p) % 2 == 0 && m * (2 * p) / 2 == m * p
  {
    assert m * (2 * p) == 2 * (m * p);
  }

  /** Dividing by 2m is halving, then dividing by m. */
  lemma HalfMod(a: nat, m: nat)
    requires m > 0
    ensures a % (2 * m) == 2 * ((a / 2) % m) + a % 2
    ensures a / (2 * m) == a / 2 / m
  {
    var q, r := a / 2 / m, (a / 2) % m;
    assert a / 2 == m * q + r;
    assert a == 2 * (m * q) + 2 * r + a % 2;
    assert 2 * (m * q) == (2 * m) * q;
    DivideUnique(a, 2 * m, q, 2 * r + a % 2);
  }

  lemma {:induction false} ShrAdd(a: nat, m: nat, n: nat)
    ensures Shr(Shr(a, m), n) == Shr(a, m + n)
  {
    if m == 0 {
    } else {
      ShrAdd(a / 2, m - 1, n);
    }
  }

  lemma {:induction false} ShrBound(a: nat, w: nat, n: nat)
    requires a < Pow2(w)
    ensures Shr(a, n) < Pow2(if n <= w then w - n else 0)
  {
    if n == 0 {
    } else if w == 0 {
      ShrZero(n);
    } else {
      ShrBound(a / 2, w - 1, n - 1);
    }
  }

  lemma {:induction false} ShrZero(n: nat)
    ensures Shr(0, n) == 0
  {
    if n > 0 {
      ShrZero(n - 1);
    }
  }

  /** Shifting right is dividing by a power of two. */
  lemma {:induction false} ShrDivide(a: nat, n: nat)
    ensures Shr(a, n) == a / Pow2(n)
  {
    if n > 0 {
      ShrDivide(a / 2, n - 1);
      HalfMod(a, Pow2(n - 1));
    }
  }

  lemma Shr7(a: nat)
    ensures Shr(a, 7) == a / 128
  {
    ShrDivide(a, 7);
    Pow2Constants();
  }

  lemma AndMaskStep(a: nat, p: nat, m: nat)
    requires p > 0 && m == 2 * p && And(a / 2, p - 1) == a / 2 % p
    ensures And(a, m - 1) == a % m
  {
    HalfMod(a, p);
    AndOdd(a, p - 1);
  }

  /** Masking with k one bits keeps the value modulo 2^k. */
  lemma {:induction false} AndMask(a: nat, k: nat)
    ensures And(a, Pow2(k) - 1) == a % Pow2(k)
  {
    if k > 0 {
      AndMask(a / 2, k - 1);
      AndMaskStep(a, Pow2(k - 1), Pow2(k));
    }
  }

  lemma AndOdd(a: nat, h: nat)
    ensures And(a, 2 * h + 1) == a % 2 + 2 * And(a / 2, h)
  {
    assert (2 * h + 1) / 2 == h && (2 * h + 1) % 2 == 1;
  }

  lemma AndEven(a: nat, h: nat)
    ensures And(a, 2 * h) == 2 * And(a / 2, h)
  {
    assert 2 * h / 2 == h && 2 * h % 2 == 0;
  }

  lemma OrEven(a: nat, h: nat)
    ensures Or(a, 2 * h) == a % 2 + 2 * Or(a / 2, h)
  {
    assert 2 * h / 2 == h && 2 * h % 2 == 0;
    OrZero(a / 2);
  }

  lemma OrZero(a: nat)
    ensures Or(a, 0) == a && Or(0, a) == a
  {
  }

  lemma XorOdd(a: nat, h: nat)
    ensures Xor(a, 2 * h + 1) == (1 - a % 2) + 2 * Xor(a / 2, h)
  {
    assert (2 * h + 1) / 2 == h && (2 * h + 1) % 2 == 1;
  }

  /** Masking with ones above bit k clears the low k bits. */
  lemma {:induction false} AndHigh(a: nat, m: nat, k: nat)
    ensures And(a, m * Pow2(k)) == And(Shr(a, k), m) * Pow2(k)
  {
    if k > 0 {
      var p := Pow2(k - 1);
      assert Pow2(k) == 2 * p;
      AndHigh(a / 2, m, k - 1);
      MulDouble(m, p);
      AndEven(a, m * p);
      MulDouble(And(Shr(a, k), m), p);
    }
  }

  /** ORing in bits above a value that fits below them is addition. */
  lemma {:induction false} OrDisjoint(a: nat, m: nat, k: nat)
    requires a < Pow2(k)
    ensures Or(a, m * Pow2(k)) == a + m * Pow2(k)
  {
    if k > 0 {
      var p := Pow2(k - 1);
      assert Pow2(k) == 2 * p;
      OrDisjoint(a / 2, m, k - 1);
      MulDouble(m, p);
      OrEven(a, m * p);
    } else {
      assert m * Pow2(k) == m;
    }
  }

  /** XOR with all ones is the complement. */
  lemma {:induction false} XorOnes(a: nat, w: nat)
    requires a < Pow2(w)
    ensures Xor(a, Pow2(w) - 1) == Pow2(w) - 1 - a
  {
    if w > 0 {
      XorOnes(a / 2, w - 1);
      XorOdd(a, Pow2(w - 1) - 1);
      assert Pow2(w) - 1 == 2 * (Pow2(w - 1) - 1) + 1;
    }
  }

  lemma ScaleMod(a: nat, h: nat, p: nat)
    requires h > 0 && p > 0
    ensures a * p % (h * p) == a % h * p <= h * p - p
  {
    var q, r := a / h, a % h;
    assert a * p == (h * p) * q + r * p by {
      assert a == h * q + r;
      assert a * p == (h * q + r) * p == (h * q) * p + r * p;
      assert (h * q) * p == (h * p) * q;
    }
    assert r * p <= (h - 1) * p == h * p - p;
    DivideUnique(a * p, h * p, q, r * p);
  }

  /** A left shift keeps the low bits of its operand and drops the rest. */
  lemma ShlSplit(w: nat, a: nat, n: nat)
    requires n <= w
    ensures Shl(w, a, n) == (a % Pow2(w - n)) * Pow2(n)
    ensures Shl(w, a, n) <= Pow2(w) - Pow2(n)
  {
    Pow2Add(w - n, n);
    ScaleMod(a, Pow2(w - n), Pow2(n));
  }

  lemma LowBits(b: byte)
    ensures And(b, 0x7F) == b % 128
  {
    assert Pow2(7) == 128 by {
      Pow2Constants();
    }
    AndMask(b, 7);
  }

  lemma TopBit(b: byte)
    ensures And(b, 0x80) == (if b >= 128 then 0x80 else 0)
  {
    assert Pow2(7) == 128 by {
      Pow2Constants();
    }
    AndHigh(b, 1, 7);
    ShrDivide(b, 7);
    assert Pow2(1) == 2;
    AndMask(b / 128, 1);
  }

  lemma TopTwoBits(b: byte)
    ensures And(b, 0xC0) == b / 64 * 64
  {
    assert Pow2(6) == 64 by {
      Pow2Constants();
    }
    AndHigh(b, 3, 6);
    ShrDivide(b, 6);
    assert Pow2(2) == 4;
    AndMask(b / 64, 2);
  }

  /** The continuation bit and the two-bit UTF-8 tag of a byte. */
  lemma ByteMasks(b: byte)
    ensures And(b, 0x7F) == b % 128
    ensures And(b, 0x80) == (if b >= 128 then 0x80 else 0)
    ensures And(b, 0xC0) == b / 64 * 64
  {
    LowBits(b);
    TopBit(b);
    TopTwoBits(b);
  }
}
