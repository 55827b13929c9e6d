/** The text check isutf8 and C string handling. */
module Utf8 {
  import opened Bits

  /** The bytes a char pointer sees through strlen: up to the first NUL. */
  function CString(s: seq<byte>): (c: seq<byte>)
    ensures c <= s && 0 !in c
  {
    if s == [] || s[0] == 0 then [] else [s[0]] + CString(s[1..])
  }

  lemma {:induction false} CStringWhole(s: seq<byte>)
    ensures CString(s) == s <==> 0 !in s
  {
    if s != [] && s[0] != 0 {
      CStringWhole(s[1..]);
      assert s == [s[0]] + s[1..];
    }
  }

  /** Continuation bytes announced by a lead byte; -1 if it is not one. */
  function Announced(b: byte): (n: int)
    ensures -1 <= n <= 5
  {
    if b < 0x80 then 0
    else if 0xFC <= b <= 0xFD then 5
    else if b >= 0xF8 then 4
    else if b >= 0xF0 then 3
    else if b >= 0xE0 then 2
    else -1
  }

  predicate Continuation(b: byte) {
    0x80 <= b < 0xC0
  }

  /** The scan: pending continuation bytes are still owed. */
  predicate Scan(pending: nat, s: seq<byte>)
    decreases |s|
  {
    if s == [] then pending == 0
    else if pending > 0 then Continuation(s[0]) && Scan(pending - 1, s[1..])
    else Announced(s[0]) >= 0 && Scan(Announced(s[0]), s[1..])
  }

  predicate IsText(s: seq<byte>) {
    Scan(0, s)
  }

  /** Text without a NUL. */
  predicate Plain(s: seq<byte>) {
    IsText(s) && 0 !in s
  }

  /** isutf8: a size of 0 means "measure with strlen". */
  method IsUtf8(s: seq<byte>, size: nat) returns (ok: bool)
    requires size <= |s|
    ensures ok <==> IsText(if size == 0 then CString(s) else s[..size])
  {
    var text := if size == 0 then CString(s) else s[..size];
    var nb := 0;
    var i := 0;
    while i < |text|
      invariant 0 <= i <= |text| && nb >= 0
      invariant Scan(nb, text[i..]) <==> IsText(text)
    {
      var c := text[i];
      ByteMasks(c);
      i := i + 1;
      if nb == 0 {
        if And(c, 0x80) == 0 {
          continue;
        }
        if c >= 0xFC && c <= 0xFD {
          nb := 5;
        } else if c >= 0xF8 {
          nb := 4;
        } else if c >= 0xF0 {
          nb := 3;
        } else if c >= 0xE0 {
          nb := 2;
        } else {
          return false;
        }
        continue;
      }
      if And(c, 0xC0) != 0x80 {
        return false;
      }
      nb := nb - 1;
    }
    return nb == 0;
  }

  // ---- the accepted language ----

  /** A lead byte followed by exactly the continuation bytes it announces; there are
      none of two bytes, and 0xFE and 0xFF announce four. */
  predicate Unit(u: seq<byte>) {
    && (|| (|u| == 1 && u[0] < 0x80)
        || (|u| == 3 && 0xE0 <= u[0] < 0xF0)
        || (|u| == 4 && 0xF0 <= u[0] < 0xF8)
        || (|u| == 5 && (0xF8 <= u[0] < 0xFC || 0xFE <= u[0]))
        || (|u| == 6 && 0xFC <= u[0] < 0xFE))
    && forall i :: 1 <= i < |u| ==> 0x80 <= u[i] < 0xC0
  }

  function Flatten(parts: seq<seq<byte>>): seq<byte> {
    if parts == [] then [] else parts[0] + Flatten(parts[1..])
  }

  predicate Units(parts: seq<seq<byte>>) {
    forall i :: 0 <= i < |parts| ==> Unit(parts[i])
  }

  lemma {:induction false} ScanContinuations(pending: nat, s: seq<byte>)
    ensures Scan(pending, s) <==>
            && pending <= |s| && IsText(s[pending..])
            && forall i :: 0 <= i < pending ==> Continuation(s[i])
  {
    if s == [] {
    } else if pending == 0 {
      assert s[0..] == s;
    } else {
      ScanContinuations(pending - 1, s[1..]);
      if pending <= |s| {
        assert s[1..][pending - 1..] == s[pending..];
        assert forall i :: 0 <= i < pending - 1 ==> s[1..][i] == s[i + 1];
        assert forall i :: 1 <= i < pending ==> s[i] == s[1..][i - 1];
      }
    }
  }

  /** Text is empty or one unit followed by text. */
  lemma TextStep(s: seq<byte>)
    ensures s != [] ==>
            (IsText(s) <==>
             && Announced(s[0]) >= 0 && Announced(s[0]) + 1 <= |s|
             && Unit(s[..Announced(s[0]) + 1]) && IsText(s[Announced(s[0]) + 1..]))
  {
    if s != [] && Announced(s[0]) >= 0 {
      var n: nat := Announced(s[0]);
      ScanContinuations(n, s[1..]);
      if n + 1 <= |s| {
        assert s[1..][n..] == s[n + 1..];
        assert forall i :: 1 <= i < n + 1 ==> s[i] == s[1..][i - 1];
        assert forall i :: 0 <= i < n ==> s[1..][i] == s[..n + 1][i + 1];
      }
    }
  }

  lemma UnitThenText(u: seq<byte>, rest: seq<byte>)
    requires Unit(u)
    ensures IsText(u + rest) <==> IsText(rest)
  {
    TextStep(u + rest);
    assert (u + rest)[..|u|] == u && (u + rest)[|u|..] == rest;
  }

  lemma {:induction false} UnitsThenText(parts: seq<seq<byte>>, rest: seq<byte>)
    requires Units(parts)
    ensures IsText(Flatten(parts) + rest) <==> IsText(rest)
  {
    if parts == [] {
      assert Flatten(parts) + rest == rest;
    } else {
      UnitsThenText(parts[1..], rest);
      UnitThenText(parts[0], Flatten(parts[1..]) + rest);
      assert Flatten(parts) + rest == parts[0] + (Flatten(parts[1..]) + rest);
    }
  }

  lemma {:induction false} Decompose(s: seq<byte>) returns (parts: seq<seq<byte>>)
    requires IsText(s)
    ensures Units(parts) && Flatten(parts) == s
  {
    if s == [] {
      parts := [];
    } else {
      TextStep(s);
      var n := Announced(s[0]) + 1;
      var tail := Decompose(s[n..]);
      parts := [s[..n]] + tail;
      assert parts[1..] == tail;
      assert s[..n] + s[n..] == s;
    }
  }

  /** Accepted strings are exactly the concatenations of units. */
  lemma TextIsUnits(s: seq<byte>)
    ensures IsText(s) <==> exists parts :: Units(parts) && Flatten(parts) == s
  {
    if IsText(s) {
      var parts := Decompose(s);
      assert Units(parts) && Flatten(parts) == s;
    }
    if exists parts :: Units(parts) && Flatten(parts) == s {
      var parts :| Units(parts) && Flatten(parts) == s;
      UnitsThenText(parts, []);
      assert Flatten(parts) + [] == s;
    }
  }

  /** Closed under concatenation, and under cancelling an accepted prefix. */
  lemma TextPrefix(a: seq<byte>, b: seq<byte>)
    requires IsText(a)
    ensures IsText(a + b) <==> IsText(b)
  {
    var parts := Decompose(a);
    UnitsThenText(parts, b);
  }

  // ---- RFC 3629, section 4 ----

  /** The productions UTF8-1 to UTF8-4. */
  predicate Rfc3629Char(u: seq<byte>) {
    || (|u| == 1 && u[0] <= 0x7F)
    || (|u| == 2 && 0xC2 <= u[0] <= 0xDF && Continuation(u[1]))
    || (|u| == 3 && Continuation(u[1]) && Continuation(u[2])
        && (|| (u[0] == 0xE0 && u[1] >= 0xA0)
            || 0xE1 <= u[0] <= 0xEC || (u[0] == 0xED && u[1] <= 0x9F) || 0xEE <= u[0] <= 0xEF))
    || (|u| == 4 && Continuation(u[1]) && Continuation(u[2]) && Continuation(u[3])
        && (|| (u[0] == 0xF0 && u[1] >= 0x90)
            || 0xF1 <= u[0] <= 0xF3 || (u[0] == 0xF4 && u[1] <= 0x8F)))
  }

  /** A string that is UTF-8 under RFC 3629 is accepted exactly when it has no
      two-byte character. */
  lemma {:induction false} StandardText(chars: seq<seq<byte>>)
    requires forall i :: 0 <= i < |chars| ==> Rfc3629Char(chars[i])
    ensures IsText(Flatten(chars)) <==> forall i :: 0 <= i < |chars| ==> |chars[i]| != 2
  {
    if chars != [] {
      var rest := Flatten(chars[1..]);
      StandardText(chars[1..]);
      if |chars[0]| == 2 {
        assert Flatten(chars)[0] == chars[0][0];
        assert !IsText(Flatten(chars));
      } else {
        assert Unit(chars[0]);
        UnitThenText(chars[0], rest);
        assert forall i :: 1 <= i < |chars| ==> chars[i] == chars[1..][i - 1];
      }
    }
  }
}
