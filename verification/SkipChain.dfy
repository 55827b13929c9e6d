/** What happens when each seek is obeyed: the chain of positions. */
module SkipChain {
  import opened Varint
  import opened Segments

  /** Segments that can still be chosen from the whole second c on. */
  function Remaining(segments: seq<Segment>, c: int): (n: nat)
    ensures n <= |segments|
  {
    if segments == [] then 0
    else (if Trunc(segments[0].end) > c then 1 else 0) + Remaining(segments[1..], c)
  }

  lemma {:induction false} RemainingMonotone(segments: seq<Segment>, c: int, d: int)
    requires c <= d
    ensures Remaining(segments, d) <= Remaining(segments, c)
  {
    if segments != [] {
      RemainingMonotone(segments[1..], c, d);
    }
  }

  lemma {:induction false} RemainingDrops(segments: seq<Segment>, s: Segment, c: int, d: int)
    requires s in segments && c < Trunc(s.end) <= d
    ensures Remaining(segments, d) < Remaining(segments, c)
  {
    if s == segments[0] {
      RemainingMonotone(segments[1..], c, d);
    } else {
      RemainingDrops(segments[1..], s, c, d);
    }
  }

  /** currentPosition() right after a position p is reported: rounded while
      playing. */
  function Observed(playing: bool, p: real): real {
    if playing then Round(p) as real else p
  }

  lemma ObservedRange(playing: bool, p: real)
    requires p >= 0.0
    ensures Trunc(p) <= Ceil(Observed(playing, p)) <= Ceil(p)
    ensures Observed(playing, p) >= 0.0
  {
    RoundRange(p);
  }

  /** The positions sought one after the other. */
  function Targets(segments: seq<Segment>, playing: bool, current: real): seq<real>
    decreases Remaining(segments, Ceil(current))
  {
    var e := CurrentEnd(segments, current);
    if e < 0.0 then []
    else
      JumpDrops(segments, playing, current);
      [e] + Targets(segments, playing, Observed(playing, e))
  }

  /** Where the chain comes to rest. */
  function Rest(segments: seq<Segment>, playing: bool, current: real): real
    decreases Remaining(segments, Ceil(current))
  {
    var e := CurrentEnd(segments, current);
    if e < 0.0 then current
    else
      JumpDrops(segments, playing, current);
      Rest(segments, playing, Observed(playing, e))
  }

  /** At rest the last target has been reported. */
  lemma {:induction false} RestIsLast(segments: seq<Segment>, playing: bool, current: real)
    ensures var targets := Targets(segments, playing, current);
            Rest(segments, playing, current)
            == if targets == [] then current else Observed(playing, targets[|targets| - 1])
    decreases Remaining(segments, Ceil(current))
  {
    var e := CurrentEnd(segments, current);
    if e >= 0.0 {
      JumpDrops(segments, playing, current);
      RestIsLast(segments, playing, Observed(playing, e));
    }
  }

  /** A jump advances at least one second, lands where fewer segments remain, and
      skips less than a second in front of the segment it leaves. */
  lemma JumpDrops(segments: seq<Segment>, playing: bool, current: real)
    requires CurrentEnd(segments, current) >= 0.0
    ensures var e := CurrentEnd(segments, current);
            && e >= current + 1.0
            && Ceil(current) < Ceil(Observed(playing, e))
            && Remaining(segments, Ceil(Observed(playing, e))) < Remaining(segments, Ceil(current))
            && exists s <- segments :: s.end == e && Covers(s, Ceil(current)) && s.begin < current + 1.0
  {
    var e := CurrentEnd(segments, current);
    CurrentEndIs(segments, current);
    var s :| s in segments && Covers(s, Ceil(current)) && s.end == e;
    ObservedRange(playing, e);
    RoundRange(current);
    RemainingDrops(segments, s, Ceil(current), Ceil(Observed(playing, e)));
  }

  /** At most as many jumps as segments. */
  lemma {:induction false} FewJumps(segments: seq<Segment>, playing: bool, current: real)
    ensures |Targets(segments, playing, current)| <= Remaining(segments, Ceil(current)) <= |segments|
    decreases Remaining(segments, Ceil(current))
  {
    var e := CurrentEnd(segments, current);
    if e >= 0.0 {
      JumpDrops(segments, playing, current);
      FewJumps(segments, playing, Observed(playing, e));
    }
  }

  /** The whole second n lies strictly inside a segment. */
  predicate Inside(segments: seq<Segment>, n: int) {
    exists s <- segments :: s.begin < n as real < s.end
  }

  /** Every whole second that is skipped lies inside a segment, and at rest no
      segment covers the current second. */
  lemma {:induction false} OnlySegmentsSkipped(segments: seq<Segment>, playing: bool, current: real)
    requires Ceil(current) >= 0
    ensures Ceil(current) <= Ceil(Rest(segments, playing, current))
    ensures forall n :: Ceil(current) <= n < Ceil(Rest(segments, playing, current)) ==> Inside(segments, n)
    ensures forall s <- segments :: !Covers(s, Ceil(Rest(segments, playing, current)))
    decreases Remaining(segments, Ceil(current))
  {
    var e := CurrentEnd(segments, current);
    CurrentEndIs(segments, current);
    if e >= 0.0 {
      JumpDrops(segments, playing, current);
      var next := Observed(playing, e);
      OnlySegmentsSkipped(segments, playing, next);
      var s :| s in segments && s.end == e && Covers(s, Ceil(current));
      ObservedRange(playing, e);
      RoundRange(e);
      forall n | Ceil(current) <= n < Ceil(next)
        ensures Inside(segments, n)
      {
        assert s.begin < n as real < s.end;
      }
    }
  }

  // ---- whole seconds ----

  predicate Whole(segments: seq<Segment>) {
    forall s <- segments :: s.begin.Floor as real == s.begin && s.end.Floor as real == s.end && s.end >= 0.0
  }

  lemma CoversIsInside(s: Segment, n: int)
    requires s.end.Floor as real == s.end && s.end >= 0.0
    ensures Covers(s, n) <==> s.begin < n as real < s.end
  {
  }

  /** For whole-second segments the chain rests at the first whole second, from
      ceil(current) on, that is not strictly inside any segment. */
  lemma LeastFree(segments: seq<Segment>, playing: bool, current: real)
    requires Whole(segments) && Ceil(current) >= 0
    ensures var r := Ceil(Rest(segments, playing, current));
            && r >= Ceil(current) && !Inside(segments, r)
            && forall n :: Ceil(current) <= n < r ==> Inside(segments, n)
  {
    OnlySegmentsSkipped(segments, playing, current);
    var r := Ceil(Rest(segments, playing, current));
    forall s | s in segments
      ensures !(s.begin < r as real < s.end)
    {
      CoversIsInside(s, r);
    }
  }

  lemma WholeObserved(playing: bool, e: real)
    requires e >= 0.0 && e.Floor as real == e
    ensures Observed(playing, e) == e && Ceil(e) as real == e
  {
    var n := e.Floor;
    assert (e + 0.5).Floor == n;
    assert (0.0 - e).Floor == 0 - n;
  }

  /** A chain over whole-second segments that moves at all rests on a whole second. */
  lemma {:induction false} RestWhole(segments: seq<Segment>, playing: bool, current: real)
    requires Whole(segments)
    ensures CurrentEnd(segments, current) < 0.0 ==> Rest(segments, playing, current) == current
    ensures CurrentEnd(segments, current) >= 0.0 ==>
            Rest(segments, playing, current) == Ceil(Rest(segments, playing, current)) as real
    decreases Remaining(segments, Ceil(current))
  {
    var e := CurrentEnd(segments, current);
    if e >= 0.0 {
      CurrentEndIs(segments, current);
      WholeObserved(playing, e);
      JumpDrops(segments, playing, current);
      RestWhole(segments, playing, e);
    }
  }

  /** The resting position does not depend on the order of whole-second segments. */
  lemma AnyOrder(a: seq<Segment>, b: seq<Segment>, playing: bool, current: real)
    requires Whole(a) && (forall s :: s in a <==> s in b) && Ceil(current) >= 0
    ensures Rest(a, playing, current) == Rest(b, playing, current)
  {
    CurrentEndIs(a, current);
    CurrentEndIs(b, current);
    RestWhole(a, playing, current);
    RestWhole(b, playing, current);
    if CurrentEnd(a, current) >= 0.0 {
      LeastFree(a, playing, current);
      LeastFree(b, playing, current);
      SameInside(a, b, Ceil(Rest(a, playing, current)));
      SameInside(a, b, Ceil(Rest(b, playing, current)));
    }
  }

  lemma SameInside(a: seq<Segment>, b: seq<Segment>, n: int)
    requires forall s :: s in a <==> s in b
    ensures Inside(a, n) <==> Inside(b, n)
  {
  }

  /** With fractional ends the order can matter: the first of two overlapping
      segments decides, and its landing can put the other out of reach. */
  lemma OrderMatters()
    ensures var a, b := Segment(0.0, 5.0), Segment(0.0, 5.9);
            Rest([a, b], false, 1.0) == 5.0 && Rest([b, a], false, 1.0) == 5.9
  {
    var a, b := Segment(0.0, 5.0), Segment(0.0, 5.9);
    assert Ceil(1.0) == 1 && Ceil(5.0) == 5 && Ceil(5.9) == 6 && Trunc(a.end) == 5 && Trunc(b.end) == 5;
    assert [a, b][1..] == [b] && [b, a][1..] == [a];
    assert [a][1..] == [] && [b][1..] == [];
    assert CurrentEnd([a, b], 1.0) == 5.0 && CurrentEnd([b, a], 1.0) == 5.9;
    assert !Covers(a, 5) && !Covers(b, 5) && !Covers(a, 6) && !Covers(b, 6);
    FirstCoveringIs([a, b], 5);
    FirstCoveringIs([b, a], 6);
    assert CurrentEnd([a, b], 5.0) < 0.0 && CurrentEnd([b, a], 5.9) < 0.0;
  }
}
