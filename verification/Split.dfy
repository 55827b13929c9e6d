/** stringSplit. */
module StringSplit {
  import opened Bits

  /** The pieces of s between occurrences of d. */
  function Split(s: seq<byte>, d: byte): (pieces: seq<seq<byte>>)
    ensures |pieces| >= 1
  {
    if s == [] then [[]]
    else
      var rest := Split(s[1..], d);
      if s[0] == d then [[]] + rest else [[s[0]] + rest[0]] + rest[1..]
  }

  /** The pieces with d between them. */
  function Join(pieces: seq<seq<byte>>, d: byte): seq<byte> {
    if pieces == [] then []
    else if |pieces| == 1 then pieces[0]
    else pieces[0] + [d] + Join(pieces[1..], d)
  }

  /** string::find from start; the length of s when there is none. */
  function Find(s: seq<byte>, d: byte, start: nat): (end: nat)
    requires start <= |s|
    ensures start <= end <= |s| && d !in s[start..end]
    ensures end < |s| ==> s[end] == d
    decreases |s| - start
  {
    if start == |s| then start
    else if s[start] == d then start
    else
      var end := Find(s, d, start + 1);
      assert s[start..end] == [s[start]] + s[start + 1..end];
      end
  }

  lemma {:induction false} SplitPiece(p: seq<byte>, d: byte, rest: seq<byte>)
    requires d !in p
    ensures Split(p + [d] + rest, d) == [p] + Split(rest, d)
  {
    if p == [] {
      assert p + [d] + rest == [d] + rest;
      assert ([d] + rest)[1..] == rest;
    } else {
      assert (p + [d] + rest)[1..] == p[1..] + [d] + rest;
      SplitPiece(p[1..], d, rest);
      assert [p[0]] + p[1..] == p;
    }
  }

  lemma {:induction false} SplitWhole(p: seq<byte>, d: byte)
    requires d !in p
    ensures Split(p, d) == [p]
  {
    if p != [] {
      SplitWhole(p[1..], d);
      assert [p[0]] + p[1..] == p;
    }
  }

  lemma Round(s: seq<byte>, d: byte, start: nat, end: nat)
    requires start <= end < |s| && d !in s[start..end] && s[end] == d
    ensures Split(s[start..], d) == [s[start..end]] + Split(s[end + 1..], d)
  {
    assert s[start..] == s[start..end] + [d] + s[end + 1..];
    SplitPiece(s[start..end], d, s[end + 1..]);
  }

  /** stringSplit itself. */
  method Run(s: seq<byte>, d: byte) returns (ret: seq<seq<byte>>)
    ensures ret == Split(s, d)
  {
    ret := [];
    var start := 0;
    assert s[0..] == s;
    while start < |s|
      invariant 0 <= start <= |s|
      invariant ret + Split(s[start..], d) == Split(s, d)
    {
      var end := Find(s, d, start);
      if end == |s| {
        assert s[start..end] == s[start..];
        break;
      }
      Round(s, d, start, end);
      Regroup(ret, s[start..end], Split(s[end + 1..], d));
      ret := ret + [s[start..end]];
      start := end + 1;
    }
    SplitWhole(s[start..], d);
    ret := ret + [s[start..]];
  }

  lemma Regroup(a: seq<seq<byte>>, p: seq<byte>, b: seq<seq<byte>>)
    ensures a + ([p] + b) == (a + [p]) + b
  {
  }

  /** Joining the pieces gives the string back, and no piece holds the delimiter. */
  lemma {:induction false} JoinSplit(s: seq<byte>, d: byte)
    ensures Join(Split(s, d), d) == s
    ensures forall i :: 0 <= i < |Split(s, d)| ==> d !in Split(s, d)[i]
  {
    if s != [] {
      JoinSplit(s[1..], d);
      var rest := Split(s[1..], d);
      assert s == [s[0]] + s[1..];
      if s[0] == d {
        assert ([[]] + rest)[1..] == rest;
      } else {
        var first := [s[0]] + rest[0];
        assert ([first] + rest[1..])[1..] == rest[1..];
        JoinFirst(s[0], rest, d);
      }
    }
  }

  lemma JoinFirst(b: byte, rest: seq<seq<byte>>, d: byte)
    requires |rest| >= 1
    ensures Join([[b] + rest[0]] + rest[1..], d) == [b] + Join(rest, d)
  {
    var all := [[b] + rest[0]] + rest[1..];
    assert all[1..] == rest[1..];
    if |rest| > 1 {
      assert ([b] + rest[0]) + [d] + Join(rest[1..], d) == [b] + (rest[0] + [d] + Join(rest[1..], d));
    }
  }

  /** Splitting is the only way to write s as delimiter-free pieces. */
  lemma {:induction false} SplitJoin(pieces: seq<seq<byte>>, d: byte)
    requires |pieces| >= 1 && forall i :: 0 <= i < |pieces| ==> d !in pieces[i]
    ensures Split(Join(pieces, d), d) == pieces
  {
    if |pieces| == 1 {
      SplitWhole(pieces[0], d);
      assert pieces == [pieces[0]];
    } else {
      SplitJoin(pieces[1..], d);
      SplitPiece(pieces[0], d, Join(pieces[1..], d));
      assert pieces == [pieces[0]] + pieces[1..];
    }
  }
}
