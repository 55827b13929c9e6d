/** The mDNS name codec: the labels that sendRequest writes (RFC 1035, section
    3.1) and the loop of parsePacket that reads them. */
module Mdns {
  import opened Bits
  import opened StringSplit
  import opened Varint

  const DOT: byte := 0x2E
  const QUERY_HEADER: seq<byte> := [0, 0, 0, 0, 0, 1, 0, 0, 0, 0, 0, 0]
  const QUERY_FOOTER: seq<byte> := [0x00, 0x0c, 0x00, 0x01]

  /** The length bytes and pieces, as sendRequest appends them. */
  function EncodePieces(pieces: seq<seq<byte>>): seq<byte> {
    if pieces == [] then []
    else [|pieces[0]| % 256] + pieces[0] + EncodePieces(pieces[1..])
  }

  /** The labels of a name, each followed by a dot. */
  function NameOf(labels: seq<seq<byte>>): seq<byte> {
    if labels == [] then [] else labels[0] + [DOT] + NameOf(labels[1..])
  }

  function Request(name: seq<byte>): seq<byte> {
    QUERY_HEADER + EncodePieces(Split(name, DOT)) + QUERY_FOOTER
  }

  method SendRequest(queryName: seq<byte>) returns (data: seq<byte>)
    ensures data == Request(queryName)
  {
    data := QUERY_HEADER;
    var components := StringSplit.Run(queryName, DOT);
    for i := 0 to |components|
      invariant data + EncodePieces(components[i..]) == QUERY_HEADER + EncodePieces(components)
    {
      var component := components[i];
      assert components[i..][1..] == components[i + 1..];
      data := data + [|component| % 256];
      data := data + component;
    }
    assert data == QUERY_HEADER + EncodePieces(components);
    data := data + QUERY_FOOTER;
  }

  /** string::substr, which stops at the end of the string. */
  function Substr(s: seq<byte>, pos: nat, n: nat): seq<byte>
    requires pos <= |s|
  {
    s[pos..if pos + n <= |s| then pos + n else |s|]
  }

  // ---- the label loop ----

  /** A round at pos ends the loop: too few bytes are left, or the terminator. */
  predicate Stops(data: seq<byte>, pos: nat) {
    pos + 2 >= |data| || data[pos] == 0
  }

  /** Where a round at pos moves to: the sum is narrowed to eight bits. */
  function NextPos(data: seq<byte>, pos: nat): byte
    requires !Stops(data, pos)
  {
    (pos + 1 + data[pos]) % 256
  }

  predicate GoesOn(data: seq<byte>, pos: nat) {
    !Stops(data, pos) && NextPos(data, pos) < |data|
  }

  function LabelAt(data: seq<byte>, pos: nat): seq<byte>
    requires !Stops(data, pos)
  {
    Substr(data, pos + 1, data[pos])
  }

  /** How the label loop ends: with the labels read and the position after them, or
      refused; or not yet, after the given number of rounds. */
  datatype LabelsEnd = Ended(hostname: seq<byte>, pos: nat) | OutOfRange | Unfinished

  /** The position in which the loop leaves a round that ends it. */
  function StopPos(data: seq<byte>, pos: nat): nat {
    if pos + 2 < |data| then pos + 1 else pos
  }

  /** The label loop from pos on, cut off before the round after the given ones. */
  function ReadLabels(data: seq<byte>, pos: nat, hostname: seq<byte>, rounds: nat): LabelsEnd
    decreases rounds
  {
    if Stops(data, pos) then Ended(hostname, StopPos(data, pos))
    else if !GoesOn(data, pos) then OutOfRange
    else if rounds == 0 then Unfinished
    else ReadLabels(data, NextPos(data, pos), hostname + LabelAt(data, pos) + [DOT], rounds - 1)
  }

  /** The label loop; Unfinished when it never ends, see NeverEnds. */
  function Loop(data: seq<byte>, pos: nat, hostname: seq<byte>): LabelsEnd {
    ReadLabels(data, pos, hostname, |data|)
  }

  /** The result of parsing; Endless when the label loop goes on for ever. */
  datatype Host = Host(name: seq<byte>) | Endless

  predicate HasAnswers(data: seq<byte>)
    requires |data| >= 8
  {
    !(data[6] == 0 && data[7] == 0)
  }

  function ParsePacket(data: seq<byte>, verbose: bool): Host {
    if |data| < |QUERY_HEADER| + 4 then Host([])
    else if !verbose && !HasAnswers(data) then Host([])
    else
      match Loop(data, |QUERY_HEADER|, [])
      case OutOfRange => Host([])
      case Unfinished => Endless
      case Ended(hostname, _) => if HasAnswers(data) then Host(hostname) else Host([])
  }

  /** parsePacket, with a count of the rounds so that it gives up where the source
      would read the same labels for ever. */
  method Parse(data: seq<byte>, verbose: bool) returns (h: Host)
    ensures h == ParsePacket(data, verbose)
  {
    if |data| < |QUERY_HEADER| + 4 {
      return Host([]);
    }
    var hasResponse := !(data[6] == 0 && data[7] == 0);
    if !verbose && !hasResponse {
      return Host([]);
    }
    var hostname: seq<byte> := [];
    var pos := |QUERY_HEADER|;
    var rounds := |data|;
    while pos + 2 < |data|
      invariant 0 <= pos && 0 <= rounds
      invariant ReadLabels(data, pos, hostname, rounds) == Loop(data, |QUERY_HEADER|, [])
      decreases rounds
    {
      var length := data[pos];
      pos := pos + 1;
      if length == 0 {
        break;
      }
      var nextPos: byte := (pos + length) % 256;
      if nextPos >= |data| {
        return Host([]);
      }
      if rounds == 0 {
        return Endless;
      }
      hostname := hostname + Substr(data, pos, length) + [DOT];
      pos := nextPos;
      rounds := rounds - 1;
    }
    if !hasResponse {
      return Host([]);
    }
    return Host(hostname);
  }

  // ---- when the loop ends ----

  /** The position after n rounds, if the loop gets there. */
  function Trail(data: seq<byte>, pos: nat, n: nat): Option<nat>
    decreases n
  {
    if n == 0 then Some(pos)
    else if !GoesOn(data, pos) then None
    else Trail(data, NextPos(data, pos), n - 1)
  }

  lemma {:induction false} TrailAdd(data: seq<byte>, pos: nat, i: nat, m: nat)
    ensures Trail(data, pos, i + m)
         == if Trail(data, pos, i).None? then None else Trail(data, Trail(data, pos, i).value, m)
    decreases i
  {
    if i > 0 && GoesOn(data, pos) {
      TrailAdd(data, NextPos(data, pos), i - 1, m);
    }
  }

  lemma {:induction false} UnfinishedExactly(data: seq<byte>, pos: nat, hostname: seq<byte>, rounds: nat)
    ensures ReadLabels(data, pos, hostname, rounds) == Unfinished <==> Trail(data, pos, rounds + 1).Some?
    decreases rounds
  {
    if GoesOn(data, pos) && rounds > 0 {
      UnfinishedExactly(data, NextPos(data, pos), hostname + LabelAt(data, pos) + [DOT], rounds - 1);
    }
  }

  /** A position is visited twice, after i and after j rounds. */
  predicate Repeats(data: seq<byte>, pos: nat, i: nat, j: nat) {
    i < j <= |data| && Trail(data, pos, i).Some? && Trail(data, pos, i) == Trail(data, pos, j)
  }

  lemma {:induction false} CycleGoesOn(data: seq<byte>, pos: nat, i: nat, j: nat, n: nat)
    requires Repeats(data, pos, i, j)
    ensures Trail(data, pos, n).Some?
    decreases n
  {
    if n <= j {
      TrailAdd(data, pos, n, j - n);
    } else {
      CycleGoesOn(data, pos, i, j, n - (j - i));
      TrailAdd(data, pos, j, n - j);
      TrailAdd(data, pos, i, n - j);
    }
  }

  lemma {:induction false} CountBelow(s: set<nat>, n: nat)
    requires forall x <- s :: x < n
    ensures |s| <= n
  {
    if n > 0 {
      CountBelow(s - {n - 1}, n - 1);
    }
  }

  function Elements(s: seq<nat>): set<nat> {
    set x | x in s
  }

  lemma {:induction false} DistinctCount(s: seq<nat>)
    requires forall i, j :: 0 <= i < j < |s| ==> s[i] != s[j]
    ensures |Elements(s)| == |s|
  {
    if s != [] {
      var front, last := s[..|s| - 1], s[|s| - 1];
      DistinctCount(front);
      assert s == front + [last];
      assert Elements(s) == Elements(front) + {last};
    }
  }

  /** More positions than there are bytes: one of them comes twice. */
  lemma Pigeonhole(s: seq<nat>, n: nat) returns (i: nat, j: nat)
    requires |s| > n && forall x <- s :: x < n
    ensures i < j < |s| && s[i] == s[j]
  {
    if exists a: nat, b: nat :: a < b < |s| && s[a] == s[b] {
      i, j :| i < j < |s| && s[i] == s[j];
    } else {
      DistinctCount(s);
      CountBelow(Elements(s), n);
      assert false;
    }
  }

  lemma LongTrailRepeats(data: seq<byte>, pos: nat) returns (i: nat, j: nat)
    requires Trail(data, pos, |data| + 1).Some?
    ensures Repeats(data, pos, i, j)
  {
    forall k: nat | k <= |data|
      ensures Trail(data, pos, k).Some? && Trail(data, pos, k).value < |data|
    {
      TrailAdd(data, pos, k, |data| + 1 - k);
    }
    var ps := seq(|data| + 1, k requires 0 <= k <= |data| => Trail(data, pos, k).value);
    i, j := Pigeonhole(ps, |data|);
    assert ps[i] == Trail(data, pos, i).value && ps[j] == Trail(data, pos, j).value;
  }

  /** The loop never ends exactly when it comes to a position again; and as many
      rounds as there are bytes tell. */
  lemma NeverEnds(data: seq<byte>, pos: nat, hostname: seq<byte>)
    ensures Loop(data, pos, hostname) == Unfinished <==>
            forall rounds: nat :: ReadLabels(data, pos, hostname, rounds) == Unfinished
    ensures Loop(data, pos, hostname) == Unfinished <==> exists i: nat, j: nat :: Repeats(data, pos, i, j)
  {
    UnfinishedExactly(data, pos, hostname, |data|);
    if Loop(data, pos, hostname) == Unfinished {
      var i, j := LongTrailRepeats(data, pos);
    }
    if i: nat, j: nat :| Repeats(data, pos, i, j) {
      forall rounds: nat
        ensures ReadLabels(data, pos, hostname, rounds) == Unfinished
      {
        CycleGoesOn(data, pos, i, j, rounds + 1);
        UnfinishedExactly(data, pos, hostname, rounds);
      }
    }
  }

  lemma {:induction false} MoreRounds(data: seq<byte>, pos: nat, hostname: seq<byte>, few: nat, many: nat)
    requires few <= many && ReadLabels(data, pos, hostname, few) != Unfinished
    ensures ReadLabels(data, pos, hostname, many) == ReadLabels(data, pos, hostname, few)
    decreases few
  {
    if GoesOn(data, pos) {
      MoreRounds(data, NextPos(data, pos), hostname + LabelAt(data, pos) + [DOT], few - 1, many - 1);
    }
  }

  /** The loop is its first round followed by the loop. */
  lemma LoopRound(data: seq<byte>, pos: nat, hostname: seq<byte>)
    requires GoesOn(data, pos)
    ensures Loop(data, pos, hostname)
         == Loop(data, NextPos(data, pos), hostname + LabelAt(data, pos) + [DOT])
  {
    var next, more := NextPos(data, pos), hostname + LabelAt(data, pos) + [DOT];
    if ReadLabels(data, next, more, |data| - 1) == Unfinished {
      NeverEnds(data, pos, hostname);
      assert ReadLabels(data, pos, hostname, |data| + 1) == Unfinished;
    } else {
      MoreRounds(data, next, more, |data| - 1, |data|);
    }
  }

  /** A label length of 255 at the first position leads back to it. */
  lemma EndlessPacket(data: seq<byte>, verbose: bool)
    requires |data| >= 16 && (verbose || data[6] as int * 0x100 + data[7] as int > 0) && data[12] == 255
    ensures ParsePacket(data, verbose) == Endless
  {
    var pos := |QUERY_HEADER|;
    assert Trail(data, pos, 1) == Trail(data, NextPos(data, pos), 0);
    assert Repeats(data, pos, 0, 1);
    NeverEnds(data, pos, []);
  }

  // ---- which labels ----

  /** One round: a length byte that is not 0, as many bytes after it as there are, and
      a next position, cut to eight bits, inside the packet. */
  predicate ReadsOne(data: seq<byte>, p: nat, l: seq<byte>, next: nat) {
    && p + 2 < |data| && data[p] != 0
    && l == data[p + 1..if p + 1 + data[p] <= |data| then p + 1 + data[p] else |data|]
    && next == (p + 1 + data[p]) % 0x100 < |data|
  }

  /** The loop that starts at ps[0] goes through the positions ps and reads the labels
      ls at all but the last. */
  predicate Path(data: seq<byte>, ps: seq<nat>, ls: seq<seq<byte>>) {
    |ps| == |ls| + 1 && forall i :: 0 <= i < |ls| ==> ReadsOne(data, ps[i], ls[i], ps[i + 1])
  }

  /** It ends at the last of them. */
  predicate Reads(data: seq<byte>, ps: seq<nat>, ls: seq<seq<byte>>) {
    Path(data, ps, ls) && (ps[|ls|] + 2 >= |data| || data[ps[|ls|]] == 0)
  }

  /** It is refused there: the next position is outside the packet. */
  predicate RunsOut(data: seq<byte>, ps: seq<nat>, ls: seq<seq<byte>>) {
    && Path(data, ps, ls)
    && var p := ps[|ls|];
       p + 2 < |data| && data[p] != 0 && (p + 1 + data[p]) % 0x100 >= |data|
  }

  /** It has been there before. */
  predicate Circles(data: seq<byte>, ps: seq<nat>, ls: seq<seq<byte>>) {
    Path(data, ps, ls) && exists i :: 0 <= i < |ls| && ps[i] == ps[|ls|]
  }

  lemma OneRead(data: seq<byte>, p: nat, l: seq<byte>, next: nat)
    ensures ReadsOne(data, p, l, next) <==> GoesOn(data, p) && l == LabelAt(data, p) && next == NextPos(data, p)
  {
  }

  lemma PathCons(data: seq<byte>, pos: nat, ps: seq<nat>, ls: seq<seq<byte>>)
    requires GoesOn(data, pos) && Path(data, ps, ls) && ps[0] == NextPos(data, pos)
    ensures Path(data, [pos] + ps, [LabelAt(data, pos)] + ls)
  {
    var ps', ls' := [pos] + ps, [LabelAt(data, pos)] + ls;
    OneRead(data, pos, ls'[0], ps'[1]);
    forall i | 0 <= i < |ls'|
      ensures ReadsOne(data, ps'[i], ls'[i], ps'[i + 1])
    {
      assert i == 0 || (ps'[i] == ps[i - 1] && ls'[i] == ls[i - 1] && ps'[i + 1] == ps[i - 1 + 1]);
    }
  }

  lemma PathTail(data: seq<byte>, ps: seq<nat>, ls: seq<seq<byte>>)
    requires Path(data, ps, ls) && ls != []
    ensures GoesOn(data, ps[0]) && ps[1] == NextPos(data, ps[0]) && ls[0] == LabelAt(data, ps[0])
    ensures Path(data, ps[1..], ls[1..])
  {
    assert ReadsOne(data, ps[0], ls[0], ps[0 + 1]);
    OneRead(data, ps[0], ls[0], ps[1]);
    forall i | 0 <= i < |ls| - 1
      ensures ReadsOne(data, ps[1..][i], ls[1..][i], ps[1..][i + 1])
    {
      assert ReadsOne(data, ps[i + 1], ls[i + 1], ps[i + 1 + 1]);
    }
  }

  lemma ReadsCons(data: seq<byte>, pos: nat, ps: seq<nat>, ls: seq<seq<byte>>)
    requires GoesOn(data, pos) && Reads(data, ps, ls) && ps[0] == NextPos(data, pos)
    ensures Reads(data, [pos] + ps, [LabelAt(data, pos)] + ls)
  {
    PathCons(data, pos, ps, ls);
  }

  lemma NameCons(hostname: seq<byte>, l: seq<byte>, ls: seq<seq<byte>>)
    ensures hostname + NameOf([l] + ls) == hostname + l + [DOT] + NameOf(ls)
  {
    assert ([l] + ls)[1..] == ls;
  }

  lemma NameOne(hostname: seq<byte>, l: seq<byte>)
    ensures hostname + NameOf([l]) == hostname + l + [DOT]
  {
    assert [l][1..] == [];
  }

  lemma {:induction false} ReadsWhatEnds(data: seq<byte>, pos: nat, hostname: seq<byte>, rounds: nat)
      returns (ps: seq<nat>, ls: seq<seq<byte>>)
    requires ReadLabels(data, pos, hostname, rounds).Ended?
    ensures Reads(data, ps, ls) && ps[0] == pos
    ensures ReadLabels(data, pos, hostname, rounds)
         == Ended(hostname + NameOf(ls), StopPos(data, ps[|ls|]))
    decreases rounds
  {
    if Stops(data, pos) {
      ps, ls := [pos], [];
      assert hostname + [] == hostname;
    } else {
      var l := LabelAt(data, pos);
      ps, ls := ReadsWhatEnds(data, NextPos(data, pos), hostname + l + [DOT], rounds - 1);
      ReadsCons(data, pos, ps, ls);
      NameCons(hostname, l, ls);
      ps, ls := [pos] + ps, [l] + ls;
    }
  }

  lemma {:induction false} EndsWhatReads(data: seq<byte>, ps: seq<nat>, ls: seq<seq<byte>>, hostname: seq<byte>)
    requires Reads(data, ps, ls)
    ensures Loop(data, ps[0], hostname) == Ended(hostname + NameOf(ls), StopPos(data, ps[|ls|]))
    decreases |ls|
  {
    if ls == [] {
      assert hostname + [] == hostname;
    } else {
      PathTail(data, ps, ls);
      EndsWhatReads(data, ps[1..], ls[1..], hostname + ls[0] + [DOT]);
      LoopRound(data, ps[0], hostname);
      NameCons(hostname, ls[0], ls[1..]);
      assert ls == [ls[0]] + ls[1..];
    }
  }

  /** The loop that starts at pos spells the name, whatever was read before. */
  ghost predicate Spells(data: seq<byte>, pos: nat, name: seq<byte>) {
    exists ps, ls :: Reads(data, ps, ls) && ps[0] == pos && NameOf(ls) == name
  }

  /** The loop only reads what is there: it appends a name to the host name exactly
      when labels with that name are met on its way, the position wrapping or not. */
  lemma LabelsAreThere(data: seq<byte>, pos: nat, hostname: seq<byte>, name: seq<byte>)
    ensures (exists end :: Loop(data, pos, hostname) == Ended(hostname + name, end)) <==> Spells(data, pos, name)
  {
    if end :| Loop(data, pos, hostname) == Ended(hostname + name, end) {
      var ps, ls := ReadsWhatEnds(data, pos, hostname, |data|);
      assert (hostname + name)[|hostname|..] == name;
      assert (hostname + NameOf(ls))[|hostname|..] == NameOf(ls);
    }
    if ps, ls :| Reads(data, ps, ls) && ps[0] == pos && NameOf(ls) == name {
      EndsWhatReads(data, ps, ls, hostname);
    }
  }

  // ---- round trip ----

  /** A label that its length byte can hold; splitting at dots makes no others. */
  predicate Label(l: seq<byte>) {
    1 <= |l| <= 255
  }

  predicate Labels(ls: seq<seq<byte>>) {
    forall i :: 0 <= i < |ls| ==> Label(ls[i])
  }

  predicate DotFree(ls: seq<seq<byte>>) {
    forall i :: 0 <= i < |ls| ==> DOT !in ls[i]
  }

  lemma {:induction false} NameIsJoin(labels: seq<seq<byte>>)
    ensures NameOf(labels) == Join(labels + [[]], DOT)
  {
    if labels != [] {
      NameIsJoin(labels[1..]);
      assert (labels + [[]])[1..] == labels[1..] + [[]];
    }
  }

  lemma Regroup(x: seq<byte>, y: seq<byte>, z: seq<byte>)
    ensures x + (y + z) == (x + y) + z
  {
  }

  lemma {:induction false} EncodeAppend(a: seq<seq<byte>>, b: seq<seq<byte>>)
    ensures EncodePieces(a + b) == EncodePieces(a) + EncodePieces(b)
  {
    if a == [] {
      assert a + b == b;
    } else {
      EncodeAppend(a[1..], b);
      assert (a + b)[1..] == a[1..] + b && (a + b)[0] == a[0];
      Regroup([|a[0]| % 256] + a[0], EncodePieces(a[1..]), EncodePieces(b));
    }
  }

  /** The name's trailing dot gives an empty last piece, whose length byte is the
      terminator. */
  lemma NameEncoding(labels: seq<seq<byte>>)
    requires DotFree(labels)
    ensures Split(NameOf(labels), DOT) == labels + [[]]
    ensures EncodePieces(Split(NameOf(labels), DOT)) == EncodePieces(labels) + [0]
  {
    NameIsJoin(labels);
    SplitJoin(labels + [[]], DOT);
    EncodeAppend(labels, [[]]);
    var empty: seq<seq<byte>> := [[]];
    assert empty[1..] == [];
    assert EncodePieces(empty) == [0];
  }

  /** s stands in data at pos. */
  predicate At(data: seq<byte>, pos: nat, s: seq<byte>) {
    pos + |s| <= |data| && data[pos..pos + |s|] == s
  }

  lemma AtSplit(data: seq<byte>, pos: nat, a: seq<byte>, b: seq<byte>)
    ensures At(data, pos, a + b) <==> At(data, pos, a) && At(data, pos + |a|, b)
  {
    if pos + |a| + |b| <= |data| {
      var m := pos + |a|;
      assert data[pos..m + |b|] == data[pos..m] + data[m..m + |b|];
      assert At(data, pos, a + b) ==> (a + b)[..|a|] == a && (a + b)[|a|..] == b;
    }
  }

  /** Encoded labels stand at pos exactly when the first does and the others follow. */
  lemma EncodedAt(data: seq<byte>, pos: nat, l: seq<byte>, tail: seq<seq<byte>>)
    requires Label(l)
    ensures |EncodePieces([l] + tail)| == 1 + |l| + |EncodePieces(tail)|
    ensures At(data, pos, EncodePieces([l] + tail)) <==>
            && At(data, pos, [|l|]) && At(data, pos + 1, l)
            && At(data, pos + 1 + |l|, EncodePieces(tail))
  {
    assert ([l] + tail)[1..] == tail;
    AtSplit(data, pos, [|l|] + l, EncodePieces(tail));
    AtSplit(data, pos, [|l|], l);
  }

  /** One round of the label loop over a label. */
  lemma OneLabel(data: seq<byte>, pos: nat, l: seq<byte>, hostname: seq<byte>)
    requires Label(l) && pos <= 255 && pos + 1 + |l| < |data|
    requires At(data, pos, [|l|]) && At(data, pos + 1, l)
    ensures var next := pos + 1 + |l|;
            Loop(data, pos, hostname) == Loop(data, if next <= 255 then next else next - 256, hostname + l + [DOT])
  {
    assert data[pos] == data[pos..pos + 1][0] == |l|;
    LoopRound(data, pos, hostname);
  }

  /** How many labels there are up to the first that ends past offset 255. */
  function Crossing(pos: nat, labels: seq<seq<byte>>): (k: nat)
    ensures k <= |labels|
    decreases |labels|
  {
    if labels == [] then 0
    else if pos + 1 + |labels[0]| > 255 then 1
    else 1 + Crossing(pos + 1 + |labels[0]|, labels[1..])
  }

  /** Where labels that stand at pos end. */
  function EndOf(pos: nat, labels: seq<seq<byte>>): nat {
    pos + |EncodePieces(labels)|
  }

  /** The labels at pos are read up to their end, or up to the first that ends past
      offset 255; from there the loop goes on 256 bytes earlier. */
  predicate ReadsLabels(data: seq<byte>, pos: nat, labels: seq<seq<byte>>, hostname: seq<byte>) {
    && (EndOf(pos, labels) <= 255 ==>
          Loop(data, pos, hostname) == Loop(data, EndOf(pos, labels), hostname + NameOf(labels)))
    && (EndOf(pos, labels) > 255 ==>
          var read := labels[..Crossing(pos, labels)];
          && EndOf(pos, read) > 255
          && Loop(data, pos, hostname) == Loop(data, EndOf(pos, read) - 256, hostname + NameOf(read)))
  }

  lemma {:induction false} ReadEncoded(data: seq<byte>, pos: nat, labels: seq<seq<byte>>, hostname: seq<byte>)
    requires Labels(labels) && pos <= 255
    requires EndOf(pos, labels) < |data| && At(data, pos, EncodePieces(labels))
    ensures ReadsLabels(data, pos, labels, hostname)
    decreases |labels|
  {
    if labels == [] {
      assert hostname + [] == hostname;
    } else {
      var l, tail := labels[0], labels[1..];
      assert labels == [l] + tail;
      EncodedAt(data, pos, l, tail);
      OneLabel(data, pos, l, hostname);
      if pos + 1 + |l| <= 255 {
        ReadEncoded(data, pos + 1 + |l|, tail, hostname + l + [DOT]);
        FirstFits(data, pos, l, tail, hostname);
      } else {
        FirstCrosses(data, pos, l, tail, hostname);
      }
    }
  }

  lemma FirstFits(data: seq<byte>, pos: nat, l: seq<byte>, tail: seq<seq<byte>>, hostname: seq<byte>)
    requires pos + 1 + |l| <= 255
    requires Loop(data, pos, hostname) == Loop(data, pos + 1 + |l|, hostname + l + [DOT])
    requires ReadsLabels(data, pos + 1 + |l|, tail, hostname + l + [DOT])
    ensures ReadsLabels(data, pos, [l] + tail, hostname)
  {
    var next := pos + 1 + |l|;
    CrossingCons(pos, l, tail);
    NameCons(hostname, l, tail);
    NameCons(hostname, l, tail[..Crossing(next, tail)]);
  }

  lemma FirstCrosses(data: seq<byte>, pos: nat, l: seq<byte>, tail: seq<seq<byte>>, hostname: seq<byte>)
    requires pos + 1 + |l| > 255
    requires Loop(data, pos, hostname) == Loop(data, pos + 1 + |l| - 256, hostname + l + [DOT])
    ensures ReadsLabels(data, pos, [l] + tail, hostname)
  {
    CrossesFirst(pos, l, tail);
    NameOne(hostname, l);
  }

  lemma CrossingOne(l: seq<byte>)
    ensures |EncodePieces([l])| == 1 + |l|
  {
    assert [l][1..] == [];
  }

  lemma CrossesFirst(pos: nat, l: seq<byte>, tail: seq<seq<byte>>)
    requires pos + 1 + |l| > 255
    ensures var labels := [l] + tail;
            && labels[..Crossing(pos, labels)] == [l]
            && EndOf(pos, [l]) == pos + 1 + |l| <= EndOf(pos, labels)
  {
    assert ([l] + tail)[1..] == tail;
    CrossingOne(l);
  }

  lemma CrossingCons(pos: nat, l: seq<byte>, tail: seq<seq<byte>>)
    requires pos + 1 + |l| <= 255
    ensures var next, labels := pos + 1 + |l|, [l] + tail;
            var read := tail[..Crossing(next, tail)];
            && labels[..Crossing(pos, labels)] == [l] + read
            && EndOf(pos, [l] + read) == EndOf(next, read) && EndOf(pos, labels) == EndOf(next, tail)
  {
    assert ([l] + tail)[1..] == tail;
    var read := tail[..Crossing(pos + 1 + |l|, tail)];
    assert ([l] + read)[1..] == read;
  }

  /** A reply that carries the encoding of a dotted name. */
  function Reply(header: seq<byte>, labels: seq<seq<byte>>, tail: seq<byte>): seq<byte> {
    header + EncodePieces(Split(NameOf(labels), DOT)) + tail
  }

  lemma ReplyBytes(header: seq<byte>, labels: seq<seq<byte>>, tail: seq<byte>)
    requires |header| == |QUERY_HEADER| && DotFree(labels)
    ensures var data, end := Reply(header, labels, tail), EndOf(|QUERY_HEADER|, labels);
            && |data| == end + 1 + |tail| && data[end] == 0 && At(data, |QUERY_HEADER|, EncodePieces(labels))
            && data[6] == header[6] && data[7] == header[7]
  {
    NameEncoding(labels);
    var e, pos := EncodePieces(labels), |QUERY_HEADER|;
    var data := header + (e + [0]) + tail;
    assert At(data, pos, e + [0]);
    AtSplit(data, pos, e, [0]);
    assert data[pos + |e|] == (e + [0])[|e|] == 0;
  }

  /** What parsing returns when the loop has read the name up to pos. */
  function Returned(data: seq<byte>, pos: nat, name: seq<byte>): Host {
    match Loop(data, pos, name)
    case OutOfRange => Host([])
    case Unfinished => Endless
    case Ended(hostname, _) => Host(hostname)
  }

  lemma ReplyIsRead(header: seq<byte>, labels: seq<seq<byte>>, tail: seq<byte>, verbose: bool)
    requires |header| == 12 && header[6] as int * 0x100 + header[7] as int > 0 && Labels(labels) && DotFree(labels)
    requires |Reply(header, labels, tail)| >= 16
    ensures var data, end := Reply(header, labels, tail), EndOf(|QUERY_HEADER|, labels);
            end <= 255 ==> ParsePacket(data, verbose) == Returned(data, end, NameOf(labels))
    ensures var data, end := Reply(header, labels, tail), EndOf(|QUERY_HEADER|, labels);
            var read := labels[..Crossing(|QUERY_HEADER|, labels)];
            end > 255 ==>
              && EndOf(|QUERY_HEADER|, read) > 255
              && ParsePacket(data, verbose) == Returned(data, EndOf(|QUERY_HEADER|, read) - 256, NameOf(read))
  {
    ReplyBytes(header, labels, tail);
    ReadEncoded(Reply(header, labels, tail), |QUERY_HEADER|, labels, []);
    EmptyFirst(NameOf(labels));
    EmptyFirst(NameOf(labels[..Crossing(|QUERY_HEADER|, labels)]));
  }

  lemma ReturnedExactly(data: seq<byte>, pos: nat, read: seq<byte>, rest: seq<byte>)
    requires read + rest != []
    ensures Returned(data, pos, read) == Host(read + rest) <==> Spells(data, pos, rest)
  {
    LabelsAreThere(data, pos, read, rest);
  }

  /** The name comes back whenever its encoding ends at offset 255 or less.  Past
      that the label that crosses is still read whole, and the name comes back
      exactly when the rest of it is spelled from the wrapped position on. */
  lemma NameRoundTrip(header: seq<byte>, labels: seq<seq<byte>>, tail: seq<byte>, verbose: bool)
    requires |header| == 12 && header[6] as int * 0x100 + header[7] as int > 0 && Labels(labels) && DotFree(labels)
    requires |Reply(header, labels, tail)| >= 16
    ensures EndOf(12, labels) <= 255 ==>
            ParsePacket(Reply(header, labels, tail), verbose) == Host(NameOf(labels))
    ensures EndOf(12, labels) > 255 ==>
            var data, k := Reply(header, labels, tail), Crossing(12, labels);
            var end := EndOf(12, labels[..k]);
            && end > 255
            && (ParsePacket(data, verbose) == Host(NameOf(labels)) <==>
                Spells(data, end - 256, NameOf(labels[k..])))
  {
    ReplyIsRead(header, labels, tail, verbose);
    if EndOf(|QUERY_HEADER|, labels) > 255 {
      var k := Crossing(|QUERY_HEADER|, labels);
      NameSplit(labels, k);
      ReturnedExactly(Reply(header, labels, tail), EndOf(|QUERY_HEADER|, labels[..k]) - 256,
                      NameOf(labels[..k]), NameOf(labels[k..]));
    } else {
      ReplyBytes(header, labels, tail);
    }
  }

  lemma EmptyFirst(s: seq<byte>)
    ensures [] + s == s
  {
  }

  lemma {:induction false} NameSplit(labels: seq<seq<byte>>, k: nat)
    requires k <= |labels|
    ensures NameOf(labels) == NameOf(labels[..k]) + NameOf(labels[k..])
  {
    if k > 0 {
      NameSplit(labels[1..], k - 1);
      assert labels[..k][1..] == labels[1..][..k - 1];
      Regroup(labels[0] + [DOT], NameOf(labels[1..][..k - 1]), NameOf(labels[k..]));
    } else {
      assert labels[..k] == [] && labels[k..] == labels;
      EmptyFirst(NameOf(labels));
    }
  }

  lemma SpellsNothing(data: seq<byte>, pos: nat)
    ensures Spells(data, pos, []) <==> Stops(data, pos)
  {
    if Stops(data, pos) {
      assert Reads(data, [pos], []) && [pos][0] == pos;
    }
  }

  /** "_googlecast", "_tcp" and "local". */
  const GOOGLECAST: seq<byte> := [95, 103, 111, 111, 103, 108, 101, 99, 97, 115, 116]
  const TCP: seq<byte> := [95, 116, 99, 112]
  const LOCAL: seq<byte> := [108, 111, 99, 97, 108]

  lemma ThreeLabels(a: seq<byte>, b: seq<byte>, c: seq<byte>)
    ensures |EncodePieces([a, b, c])| == 3 + |a| + |b| + |c|
  {
    assert [a, b, c] == [a] + ([b] + [c]);
    CrossingOne(a);
    CrossingOne(b);
    CrossingOne(c);
    EncodeAppend([a], [b] + [c]);
    EncodeAppend([b], [c]);
  }

  /** A device that answers with the name asked for is recognized by it. */
  lemma QueryNameReturned(header: seq<byte>, tail: seq<byte>, verbose: bool)
    requires |header| == 12 && header[6] as int * 0x100 + header[7] as int > 0
    ensures ParsePacket(Reply(header, [GOOGLECAST, TCP, LOCAL], tail), verbose)
         == Host(NameOf([GOOGLECAST, TCP, LOCAL]))
  {
    var labels := [GOOGLECAST, TCP, LOCAL];
    ThreeLabels(GOOGLECAST, TCP, LOCAL);
    ReplyBytes(header, labels, tail);
    NameRoundTrip(header, labels, tail, verbose);
  }

  /** If only the last label ends past offset 255, the name comes back exactly when
      the byte at the wrapped position is 0; any other makes it longer or the loop
      endless. */
  lemma LastLabelCrosses(header: seq<byte>, labels: seq<seq<byte>>, tail: seq<byte>, verbose: bool)
    requires |header| == 12 && header[6] as int * 0x100 + header[7] as int > 0 && Labels(labels) && DotFree(labels)
    requires EndOf(12, labels) > 255 && Crossing(12, labels) == |labels|
    ensures var data, end := Reply(header, labels, tail), EndOf(12, labels);
            && |data| > end
            && (ParsePacket(data, verbose) == Host(NameOf(labels)) <==> data[end - 256] == 0)
  {
    ReplyBytes(header, labels, tail);
    NameRoundTrip(header, labels, tail, verbose);
    assert labels[..|labels|] == labels && labels[|labels|..] == [];
    SpellsNothing(Reply(header, labels, tail), EndOf(|QUERY_HEADER|, labels) - 256);
  }

  /** For instance a label of 243 bytes ends at 256, and the name comes back if the
      reply's identifier starts with a 0. */
  lemma LongNameReturned(header: seq<byte>, l: seq<byte>, tail: seq<byte>, verbose: bool)
    requires |header| == 12 && header[6] as int * 0x100 + header[7] as int > 0
    requires |l| == 243 && DOT !in l
    ensures ParsePacket(Reply(header, [l], tail), verbose) == Host(l + [DOT]) <==> header[0] == 0
  {
    CrossingOne(l);
    NameOne([], l);
    EmptyFirst(NameOf([l]));
    EmptyFirst(l);
    LastLabelCrosses(header, [l], tail, verbose);
    assert Reply(header, [l], tail)[0] == header[0];
  }

  /** Labels that are read without the position wrapping stand encoded where the
      loop started. */
  lemma {:induction false} StandEncoded(data: seq<byte>, ps: seq<nat>, ls: seq<seq<byte>>)
    requires Reads(data, ps, ls) && ps[0] <= |data|
    requires forall i :: 0 <= i < |ls| ==> ps[i] < ps[i + 1]
    ensures Labels(ls) && At(data, ps[0], EncodePieces(ls))
    decreases |ls|
  {
    if ls != [] {
      var pos, l, more := ps[0], ls[0], ls[1..];
      PathTail(data, ps, ls);
      StandsAt(data, pos, l, ps[1]);
      forall i | 0 <= i < |more|
        ensures ps[1..][i] < ps[1..][i + 1]
      {
        assert ps[i + 1] < ps[i + 2];
      }
      StandEncoded(data, ps[1..], more);
      assert ls == [l] + more;
      EncodedAt(data, pos, l, more);
    }
  }

  lemma StandsAt(data: seq<byte>, pos: nat, l: seq<byte>, next: nat)
    requires GoesOn(data, pos) && l == LabelAt(data, pos) && next == NextPos(data, pos) && next > pos
    ensures Label(l) && next == pos + 1 + |l| < |data| && At(data, pos, [|l|]) && At(data, pos + 1, l)
  {
    NoWrap(pos, data[pos], next);
  }

  lemma NoWrap(pos: nat, length: byte, next: nat)
    requires next == (pos + 1 + length) % 256 && next > pos
    ensures next == pos + 1 + length
  {
    var n := pos + 1 + length;
    assert n == 256 * (n / 256) + next;
    assert n < 256 + pos + 1;
  }

  // ---- every packet ----

  lemma {:induction false} PathTrail(data: seq<byte>, ps: seq<nat>, ls: seq<seq<byte>>, k: nat)
    requires Path(data, ps, ls) && k <= |ls|
    ensures Trail(data, ps[0], k) == Some(ps[k])
    decreases k
  {
    if k > 0 {
      PathTail(data, ps, ls);
      PathTrail(data, ps[1..], ls[1..], k - 1);
    }
  }

  lemma {:induction false} TrailPath(data: seq<byte>, pos: nat, n: nat) returns (ps: seq<nat>, ls: seq<seq<byte>>)
    requires Trail(data, pos, n).Some?
    ensures Path(data, ps, ls) && |ls| == n && ps[0] == pos
    decreases n
  {
    if n == 0 {
      ps, ls := [pos], [];
    } else {
      ps, ls := TrailPath(data, NextPos(data, pos), n - 1);
      PathCons(data, pos, ps, ls);
      ps, ls := [pos] + ps, [LabelAt(data, pos)] + ls;
    }
  }

  lemma {:induction false} RunsOutWhatIsRefused(data: seq<byte>, pos: nat, hostname: seq<byte>, rounds: nat)
      returns (ps: seq<nat>, ls: seq<seq<byte>>)
    requires ReadLabels(data, pos, hostname, rounds) == OutOfRange
    ensures RunsOut(data, ps, ls) && ps[0] == pos
    decreases rounds
  {
    if !GoesOn(data, pos) {
      ps, ls := [pos], [];
    } else {
      var l := LabelAt(data, pos);
      ps, ls := RunsOutWhatIsRefused(data, NextPos(data, pos), hostname + l + [DOT], rounds - 1);
      PathCons(data, pos, ps, ls);
      ps, ls := [pos] + ps, [l] + ls;
    }
  }

  lemma {:induction false} RefusedWhatRunsOut(data: seq<byte>, ps: seq<nat>, ls: seq<seq<byte>>, hostname: seq<byte>)
    requires RunsOut(data, ps, ls)
    ensures Loop(data, ps[0], hostname) == OutOfRange
    decreases |ls|
  {
    if ls != [] {
      PathTail(data, ps, ls);
      RefusedWhatRunsOut(data, ps[1..], ls[1..], hostname + ls[0] + [DOT]);
      LoopRound(data, ps[0], hostname);
    }
  }

  ghost predicate Refused(data: seq<byte>, pos: nat) {
    exists ps, ls :: RunsOut(data, ps, ls) && ps[0] == pos
  }

  ghost predicate GoesRound(data: seq<byte>, pos: nat) {
    exists ps, ls :: Circles(data, ps, ls) && ps[0] == pos
  }

  lemma RefusedExactly(data: seq<byte>, pos: nat, hostname: seq<byte>)
    ensures Loop(data, pos, hostname) == OutOfRange <==> Refused(data, pos)
  {
    if Loop(data, pos, hostname) == OutOfRange {
      var ps, ls := RunsOutWhatIsRefused(data, pos, hostname, |data|);
    }
    if ps, ls :| RunsOut(data, ps, ls) && ps[0] == pos {
      RefusedWhatRunsOut(data, ps, ls, hostname);
    }
  }

  lemma CirclesLong(data: seq<byte>, ps: seq<nat>, ls: seq<seq<byte>>, i: nat, n: nat)
    requires Path(data, ps, ls) && i < |ls| && ps[i] == ps[|ls|]
    ensures Trail(data, ps[0], n).Some?
    decreases n
  {
    var j := |ls|;
    PathTrail(data, ps, ls, i);
    PathTrail(data, ps, ls, j);
    if n <= j {
      TrailAdd(data, ps[0], n, j - n);
    } else {
      CirclesLong(data, ps, ls, i, n - (j - i));
      TrailAdd(data, ps[0], j, n - j);
      TrailAdd(data, ps[0], i, n - j);
    }
  }

  lemma EndlessExactly(data: seq<byte>, pos: nat, hostname: seq<byte>)
    ensures Loop(data, pos, hostname) == Unfinished <==> GoesRound(data, pos)
  {
    UnfinishedExactly(data, pos, hostname, |data|);
    if Loop(data, pos, hostname) == Unfinished {
      var i, j := LongTrailRepeats(data, pos);
      var ps, ls := TrailPath(data, pos, j);
      PathTrail(data, ps, ls, i);
      PathTrail(data, ps, ls, j);
      assert Circles(data, ps, ls);
    }
    if ps, ls :| Circles(data, ps, ls) && ps[0] == pos {
      var i :| 0 <= i < |ls| && ps[i] == ps[|ls|];
      CirclesLong(data, ps, ls, i, |data| + 1);
    }
  }

  /** What parsing a packet of at least 16 bytes gives, when it counts answers: the
      name that the labels from offset 12 on spell, none if they run out of the
      packet, and no end if they lead back to where they have been. */
  lemma AnsweredExactly(data: seq<byte>, verbose: bool)
    requires |data| >= 16 && data[6] as int * 0x100 + data[7] as int > 0
    ensures forall name :: ParsePacket(data, verbose) == Host(name) <==>
                           Spells(data, 12, name) || (name == [] && Refused(data, 12))
    ensures ParsePacket(data, verbose) == Endless <==> GoesRound(data, 12)
  {
    EndlessExactly(data, 12, []);
    RefusedExactly(data, 12, []);
    forall name
      ensures (exists end :: Loop(data, 12, []) == Ended(name, end)) <==> Spells(data, 12, name)
    {
      LabelsAreThere(data, 12, [], name);
      EmptyFirst(name);
    }
  }

  /** A short packet, and one that counts no answers, names no host; in verbose mode
      the labels are read all the same, and may have no end. */
  lemma NoHostExactly(data: seq<byte>, verbose: bool)
    requires |data| < 16 || data[6] as int * 0x100 + data[7] as int == 0
    ensures ParsePacket(data, verbose)
         == if |data| >= 16 && verbose && GoesRound(data, 12) then Endless else Host([])
  {
    EndlessExactly(data, 12, []);
  }

  /** The request for a name of three labels, as the program makes it: one question,
      for a pointer record in the internet class. */
  lemma QueryPacket(a: seq<byte>, b: seq<byte>, c: seq<byte>)
    requires |a| < 0x100 && |b| < 0x100 && |c| < 0x100
    requires 0x2E !in a && 0x2E !in b && 0x2E !in c
    ensures Request(a + [0x2E] + b + [0x2E] + c + [0x2E])
         == [0, 0, 0, 0, 0, 1, 0, 0, 0, 0, 0, 0]
            + ([|a|] + a + [|b|] + b + [|c|] + c + [0]) + [0, 12, 0, 1]
  {
    ThreeNames(a, b, c);
    assert DotFree([a, b, c]);
    NameEncoding([a, b, c]);
  }

  lemma ThreeNames(a: seq<byte>, b: seq<byte>, c: seq<byte>)
    requires |a| < 0x100 && |b| < 0x100 && |c| < 0x100
    ensures NameOf([a, b, c]) == a + [DOT] + b + [DOT] + c + [DOT]
    ensures EncodePieces([a, b, c]) == [|a|] + a + [|b|] + b + [|c|] + c
  {
    assert [a, b, c] == [a] + ([b] + [c]);
    NameCons([], a, [b] + [c]);
    NameCons(a + [DOT], b, [c]);
    NameOne(a + [DOT] + b + [DOT], c);
    EncodeAppend([a], [b] + [c]);
    EncodeAppend([b], [c]);
    EncodeOne(a);
    EncodeOne(b);
    EncodeOne(c);
    EmptyFirst(NameOf([a, b, c]));
    EmptyFirst(a);
  }

  lemma EncodeOne(l: seq<byte>)
    requires |l| < 0x100
    ensures EncodePieces([l]) == [|l|] + l
  {
    assert [l][1..] == [];
  }

  /** Our own request, heard back, names no host. */
  lemma OwnRequestIgnored(name: seq<byte>)
    ensures ParsePacket(Request(name), false) == Host([])
  {
    assert Request(name)[6] == 0 && Request(name)[7] == 0;
  }
}
