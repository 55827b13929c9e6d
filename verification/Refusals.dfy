/** What parse refuses, with which error code, and what it leaves in the message. */
module Refusals {
  import opened Bits
  import opened Varint
  import opened Wire
  import opened Messages
  import opened Grammar
  import opened Protobuf

  /** No varint ends within the first bytes of s, up to most of them. */
  predicate NoVarint(s: seq<byte>, most: nat) {
    s != [] && forall i :: 0 <= i < |s| && i < most ==> s[i] >= 0x80
  }

  function Signed(n: nat): int {
    if n < 0x8000_0000 then n else n - 0x1_0000_0000
  }

  ghost predicate Headed(s: seq<byte>, key: seq<byte>, rest: seq<byte>) {
    s == key + rest && Word(32, key)
  }

  /** The length prefix announces more bytes than there are. */
  ghost predicate ShortBody(s: seq<byte>) {
    exists prefix, rest :: Headed(s, prefix, rest) && |rest| < Signed(WordValue(32, prefix))
  }

  /** It does not, and it is below 2^31 or not. */
  ghost predicate LongEnough(s: seq<byte>, stray: bool) {
    exists prefix, rest ::
      && Headed(s, prefix, rest) && |rest| >= Signed(WordValue(32, prefix))
      && stray == (WordValue(32, prefix) >= 0x8000_0000)
  }

  // ---- after a key ----

  /** What follows the key makes a reader record the decode error. */
  ghost predicate DecodeFlaw(wire: nat, rest: seq<byte>) {
    || wire in {3, 4, 6, 7}
    || (wire == 0 && NoVarint(rest, 10))
    || (wire == 2 && (NoVarint(rest, 5) || ShortBody(rest)))
  }

  /** What follows is missing or too short for a fixed number, or well formed but of a
      field that the callbacks do not know. */
  ghost predicate PlainFlaw(field: nat, wire: nat, rest: seq<byte>) {
    || (wire == 0 && !NoVarint(rest, 10) && (rest == [] || field !in {1, 5}))
    || (wire == 2 && (rest == [] || (field !in {2, 3, 4, 6, 7}
                                     && (LongEnough(rest, false) || LongEnough(rest, true)))))
    || (wire == 1 && |rest| < 8)
    || wire == 5
  }

  ghost predicate StrayFlaw(field: nat, wire: nat, rest: seq<byte>) {
    wire == 2 && field in {2, 3, 4, 6, 7} && LongEnough(rest, true)
  }

  lemma {:induction false} NoEndMeans(s: seq<byte>, limit: nat)
    ensures VarintEnd(s, limit) == 0 <==> forall i :: 0 <= i < |s| && i < limit ==> s[i] >= 0x80
    decreases limit
  {
    if s != [] && limit > 0 && s[0] >= 0x80 {
      NoEndMeans(s[1..], limit - 1);
      if forall i :: 0 <= i < |s[1..]| && i < limit - 1 ==> s[1..][i] >= 0x80 {
        assert forall i :: 1 <= i < |s| && i < limit ==> s[i] == s[1..][i - 1] >= 0x80;
      } else {
        var i :| 0 <= i < |s[1..]| && i < limit - 1 && s[1..][i] < 0x80;
        assert s[i + 1] < 0x80;
      }
    }
  }

  lemma VarintRefused(w: nat, s: seq<byte>)
    requires Width(w)
    ensures TakeVarint(w, s) == Refused(2) <==> NoVarint(s, if w == 32 then 5 else 10)
    ensures TakeVarint(w, s) == Refused(0) <==> s == []
    ensures TakeVarint(w, s).Refused? ==> TakeVarint(w, s).err in {0, 2}
  {
    NoEndMeans(s, MaxBytes(w));
  }

  /** A failing read moves past all the bytes it looked at: all of them, or as many as
      the longest varint has. */
  lemma UsedExactly(w: nat, s: seq<byte>)
    requires Width(w)
    ensures var most := if w == 32 then 5 else 10;
            && (s == [] || NoVarint(s, most) ==> VarintUsed(w, s) == if |s| < most then |s| else most)
            && (TakeVarint(w, s).Taken? ==> VarintUsed(w, s) == TakeVarint(w, s).size)
  {
    VarintRefused(w, s);
  }

  /** The prefix and the rest of s are the ones that the reader finds. */
  lemma OneHead(s: seq<byte>, key: seq<byte>, rest: seq<byte>)
    requires Headed(s, key, rest)
    ensures TakeVarint(32, s) == Taken(WordValue(32, key), |key|)
    ensures key == s[..|key|] && rest == s[|key|..]
  {
    TakeWord(32, key, rest);
  }

  lemma HeadFound(s: seq<byte>)
    requires TakeVarint(32, s).Taken?
    ensures var t := TakeVarint(32, s);
            Headed(s, s[..t.size], s[t.size..]) && WordValue(32, s[..t.size]) == t.value
  {
    var t := TakeVarint(32, s);
    WordTaken(32, s, t.value, t.size);
    assert s == s[..t.size] + s[t.size..];
  }

  lemma DelimitedCases(s: seq<byte>)
    ensures TakeDelimited(s) == Refused(2) <==> NoVarint(s, 5) || ShortBody(s)
    ensures TakeDelimited(s) == Refused(0) <==> s == []
    ensures TakeDelimited(s).Refused? ==> TakeDelimited(s).err in {0, 2}
    ensures TakeDelimited(s).Taken? && TakeDelimited(s).value.Stray? <==> LongEnough(s, true)
    ensures TakeDelimited(s).Taken? && TakeDelimited(s).value.Span? <==> LongEnough(s, false)
  {
    VarintRefused(32, s);
    forall key, rest | Headed(s, key, rest)
      ensures TakeVarint(32, s) == Taken(WordValue(32, key), |key|) && rest == s[|key|..]
    {
      OneHead(s, key, rest);
    }
    if TakeVarint(32, s).Taken? {
      HeadFound(s);
      var t := TakeVarint(32, s);
      assert ToInt32(t.value) == Signed(WordValue(32, s[..t.size]));
    }
  }

  lemma AfterKey(m: Message, field: nat, wire: nat, rest: seq<byte>)
    requires wire < 8
    ensures var step := StepOf(m, TakeBody(KeyPair(field, wire), rest));
            && (step == Halt(Parsed(Rejected, m, 2)) <==> DecodeFlaw(wire, rest))
            && (step == Halt(Parsed(Rejected, m, 0)) <==> PlainFlaw(field, wire, rest))
            && (step == Halt(Parsed(Strayed, m, 0)) <==> StrayFlaw(field, wire, rest))
            && (step.Onward? || DecodeFlaw(wire, rest) || PlainFlaw(field, wire, rest)
                || StrayFlaw(field, wire, rest))
  {
    if wire == 0 {
      VarintRefused(64, rest);
    } else if wire == 2 {
      DelimitedCases(rest);
    }
  }

  // ---- one record ----

  ghost predicate DecodeError(s: seq<byte>) {
    NoVarint(s, 5) || exists key, rest :: Headed(s, key, rest) && DecodeFlaw(KeyWire(key), rest)
  }

  ghost predicate PlainRefusal(s: seq<byte>) {
    exists key, rest :: Headed(s, key, rest) && PlainFlaw(KeyField(key), KeyWire(key), rest)
  }

  ghost predicate Strays(s: seq<byte>) {
    exists key, rest :: Headed(s, key, rest) && StrayFlaw(KeyField(key), KeyWire(key), rest)
  }

  lemma StepCases(m: Message, s: seq<byte>)
    requires s != []
    ensures var step := StepOf(m, TakeRecord(s));
            && (step == Halt(Parsed(Rejected, m, 2)) <==> DecodeError(s))
            && (step == Halt(Parsed(Rejected, m, 0)) <==> PlainRefusal(s))
            && (step == Halt(Parsed(Strayed, m, 0)) <==> Strays(s))
            && (step.Onward? || DecodeError(s) || PlainRefusal(s) || Strays(s))
  {
    VarintRefused(32, s);
    forall key, rest | Headed(s, key, rest)
      ensures TakeVarint(32, s) == Taken(WordValue(32, key), |key|)
      ensures key == s[..|key|] && rest == s[|key|..]
    {
      OneHead(s, key, rest);
    }
    if TakeVarint(32, s).Taken? {
      HeadFound(s);
      HeadedCases(m, s, s[..TakeVarint(32, s).size], s[TakeVarint(32, s).size..]);
    }
  }

  lemma HeadedCases(m: Message, s: seq<byte>, key: seq<byte>, rest: seq<byte>)
    requires Headed(s, key, rest)
    ensures var step := StepOf(m, TakeRecord(s));
            && (step == Halt(Parsed(Rejected, m, 2)) <==> DecodeFlaw(KeyWire(key), rest))
            && (step == Halt(Parsed(Rejected, m, 0)) <==> PlainFlaw(KeyField(key), KeyWire(key), rest))
            && (step == Halt(Parsed(Strayed, m, 0)) <==> StrayFlaw(KeyField(key), KeyWire(key), rest))
            && (step.Onward? || DecodeFlaw(KeyWire(key), rest)
                || PlainFlaw(KeyField(key), KeyWire(key), rest)
                || StrayFlaw(KeyField(key), KeyWire(key), rest))
  {
    KeyTakenWord(key, rest);
    StepAfterKey(m, s, KeyPair(KeyField(key), KeyWire(key)), |key|);
    AfterKey(m, KeyField(key), KeyWire(key), rest);
  }

  // ---- whole inputs ----

  /** s is handled records up to rest, where parsing stops. */
  ghost predicate BreaksAt(s: seq<byte>, rs: seq<Raw>, rest: seq<byte>) {
    AllHandled(rs) && s == Concat(rs) + rest && rest != []
  }

  lemma BreakResult(s: seq<byte>, rs: seq<Raw>, rest: seq<byte>, p: Parsed)
    requires BreaksAt(s, rs, rest) && StepOf(Fold(EMPTY, rs), TakeRecord(rest)) == Halt(p)
    ensures ParseRecords(EMPTY, s) == p
  {
    HandledParsed(rs, rest, EMPTY);
    ParseRound(Fold(EMPTY, rs), rest, Halt(p));
  }

  /** An input that is not accepted breaks somewhere. */
  lemma {:induction false} FindBreak(m: Message, s: seq<byte>) returns (rs: seq<Raw>, rest: seq<byte>)
    requires ParseRecords(m, s).verdict != Accepted
    ensures BreaksAt(s, rs, rest)
    ensures StepOf(Fold(m, rs), TakeRecord(rest)) == Halt(ParseRecords(m, s))
    decreases |s|
  {
    var step := StepOf(m, TakeRecord(s));
    ParseRound(m, s, step);
    if step.Halt? {
      rs, rest := [], s;
      assert Concat(rs) + rest == s;
    } else {
      var r := TakenHandled(s, m);
      var tail;
      tail, rest := FindBreak(step.message, s[step.used..]);
      ConsBreak(s, step.used, r, tail, rest);
      HandledApplies(r, m);
      rs := [r] + tail;
      assert rs[1..] == tail;
    }
  }

  lemma ConsBreak(s: seq<byte>, n: nat, r: Raw, tail: seq<Raw>, rest: seq<byte>)
    requires n <= |s| && Handled(r) && Bytes(r) == s[..n] && BreaksAt(s[n..], tail, rest)
    ensures BreaksAt(s, [r] + tail, rest)
  {
    ConsHandled(r, tail);
    assert s == s[..n] + (Concat(tail) + rest);
  }

  /** The message left behind is what the records before the break say. */
  ghost predicate LeavesRecords(p: Parsed, rs: seq<Raw>) {
    p.message == Overlay(Message(0, [], [], [], 0, [], []), rs)
  }

  lemma StopsAt(s: seq<byte>, rs: seq<Raw>, rest: seq<byte>)
    requires BreaksAt(s, rs, rest) && |s| < 0x8000_0000
    ensures DecodeError(rest) ==> Parse(s) == Parsed(Rejected, Parse(s).message, 2) && LeavesRecords(Parse(s), rs)
    ensures PlainRefusal(rest) ==> Parse(s) == Parsed(Rejected, Parse(s).message, 0) && LeavesRecords(Parse(s), rs)
    ensures Strays(rest) ==> Parse(s) == Parsed(Strayed, Parse(s).message, 0) && LeavesRecords(Parse(s), rs)
  {
    ParseSmall(s);
    FoldIsOverlay(EMPTY, rs);
    StepCases(Fold(EMPTY, rs), rest);
    var step := StepOf(Fold(EMPTY, rs), TakeRecord(rest));
    if step.Halt? {
      BreakResult(s, rs, rest, step.result);
    }
  }

  lemma WhereStopped(s: seq<byte>) returns (rs: seq<Raw>, rest: seq<byte>)
    requires |s| < 0x8000_0000 && Parse(s).verdict != Accepted
    ensures BreaksAt(s, rs, rest) && LeavesRecords(Parse(s), rs) && Parse(s).err in {0, 2}
    ensures Parse(s).verdict == Rejected && Parse(s).err == 2 ==> DecodeError(rest)
    ensures Parse(s).verdict == Rejected && Parse(s).err == 0 ==> PlainRefusal(rest)
    ensures Parse(s).verdict == Strayed ==> Strays(rest)
  {
    ParseSmall(s);
    rs, rest := FindBreak(EMPTY, s);
    FoldIsOverlay(EMPTY, rs);
    StepCases(Fold(EMPTY, rs), rest);
  }

  /** parse refuses with the decode error, refuses without one, or strays, exactly at
      the first record that has such a flaw; the fields before it stay. */
  lemma RefusedExactly(s: seq<byte>)
    requires |s| < 0x8000_0000
    ensures Parse(s).verdict == Rejected ==> Parse(s).err in {0, 2}
    ensures Parse(s).verdict == Rejected && Parse(s).err == 2 <==>
            exists rs, rest :: BreaksAt(s, rs, rest) && DecodeError(rest) && LeavesRecords(Parse(s), rs)
    ensures Parse(s).verdict == Rejected && Parse(s).err == 0 <==>
            exists rs, rest :: BreaksAt(s, rs, rest) && PlainRefusal(rest) && LeavesRecords(Parse(s), rs)
    ensures Parse(s).verdict == Strayed <==>
            exists rs, rest :: BreaksAt(s, rs, rest) && Strays(rest) && LeavesRecords(Parse(s), rs)
  {
    forall rs, rest | BreaksAt(s, rs, rest)
      ensures DecodeError(rest) ==> Parse(s).verdict == Rejected && Parse(s).err == 2
      ensures PlainRefusal(rest) ==> Parse(s).verdict == Rejected && Parse(s).err == 0
      ensures Strays(rest) ==> Parse(s).verdict == Strayed
    {
      StopsAt(s, rs, rest);
    }
    if Parse(s).verdict != Accepted {
      var rs, rest := WhereStopped(s);
    }
  }
}
