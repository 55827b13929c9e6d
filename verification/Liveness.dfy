/** Polls and seeks together: with a timeout every second and a receiver that answers
    each poll at once, a segment ahead is skipped as soon as it is entered. */
module Liveness {
  import opened Varint
  import opened Segments
  import opened SkipChain
  import opened Player
  import opened Runs
  import opened Polls

  /** The position of a receiver that has played on since its last report. */
  function Actual(s: State, now: int): real {
    (now - s.fetched) as real + s.position
  }

  /** One second: the timeout and, if it polls, the receiver's answer; no receiver
      reports a negative position. */
  function Second(s: State, now: Clock): Outcome {
    var o := TickStep(s, now);
    if o.poll && Actual(s, now) >= 0.0 then Next(o.state, Reply(Actual(s, now), now)) else o
  }

  /** The n-th second from now. */
  function Nth(s: State, now: Clock, n: nat): Outcome
    requires n >= 1
    decreases n, 0
  {
    Second(After(s, now, n - 1), now + n)
  }

  /** The state n seconds later. */
  function After(s: State, now: Clock, n: nat): State
    decreases n, 1
  {
    if n == 0 then s else Nth(s, now, n).state
  }

  /** A poll is due when the position reaches b, the begin of the earliest live
      segment. */
  predicate Armed(s: State, now: Clock, b: real) {
    && s.playing && s.youtube && s.video != "" && s.position >= 0.0
    && s.fetched <= now && s.lastSeek <= now
    && 0.0 <= Position(s, now) <= b
    && EarliestLive(s.segments, Position(s, now)) == Some(b)
    && (exists g <- s.segments :: g.begin == b && g.end >= b)
    && s.nextStart == now as real + (b - Position(s, now))
  }

  /** g is the earliest live segment at position p. */
  predicate Earliest(segments: seq<Segment>, p: real, g: Segment) {
    g in segments && Live(g, p) && forall h <- segments :: Live(h, p) ==> g.begin <= h.begin
  }

  /** A scheduling step leaves the machine armed if it plays a set video and the clock
      has not gone back behind the last report and the last seek. */
  lemma ScheduleArms(s: State, i: Input, g: Segment)
    requires Schedules(s, i) && g.begin <= g.end
    requires var x := Next(s, i).state;
             && x.playing && x.video != "" && x.fetched <= i.now && x.lastSeek <= i.now
             && Earliest(x.segments, Position(x, i.now), g)
    ensures Armed(Next(s, i).state, i.now, g.begin)
  {
    var x := Next(s, i).state;
    ScheduledState(s, i, x);
    ScheduleEffect(s, i);
    EarliestIsMinimum(x.segments, Position(x, i.now));
  }

  /** Since x only the last report has changed, and that accurately. */
  predicate Waiting(x: State, s: State) {
    && s == x.(position := s.position, fetched := s.fetched)
    && s.position >= 0.0 && s.position - s.fetched as real == x.position - x.fetched as real
  }

  lemma WaitingMoves(x: State, now: Clock, b: real, s: State, n: nat)
    requires Armed(x, now, b) && Waiting(x, s)
    ensures Actual(s, now + n) >= 0.0
    ensures Position(s, now + n) == Position(x, now) + n as real == Observed(true, Actual(s, now + n))
  {
    PositionMoves(x, now, now + n);
    assert Actual(s, now + n) == Actual(x, now + n);
  }

  /** While the position has not passed b, a second leaves the poll due at b. */
  lemma EarlySecond(x: State, now: Clock, b: real, s: State, n: nat)
    requires Armed(x, now, b) && Waiting(x, s) && Position(x, now) + n as real <= b
    ensures Second(s, now + n).seek.None? && Waiting(x, Second(s, now + n).state)
  {
    WaitingMoves(x, now, b, s, n);
    if Position(x, now) + n as real == b {
      AtBegin(x, now, b, s, n);
    }
  }

  /** At b itself the answer to the poll finds the segment no distance ahead. */
  lemma AtBegin(x: State, now: Clock, b: real, s: State, n: nat)
    requires Armed(x, now, b) && Waiting(x, s) && Position(x, now) + n as real == b
    ensures Second(s, now + n).seek.None? && Waiting(x, Second(s, now + n).state)
  {
    WaitingMoves(x, now, b, s, n);
    var t, p := TickStep(s, now + n), Actual(s, now + n);
    assert t == Outcome(s.(nextStart := -1.0), None, true, None);
    var i := Reply(p, now + n);
    var y := Selected(t.state, i.msg, now + n);
    assert y == s.(nextStart := -1.0, position := p, fetched := now + n);
    assert Position(y, now + n) == Observed(true, p) == b;
    StillEarliest(x.segments, Position(x, now), b);
    ScheduleEffect(t.state, i);
  }

  lemma StillEarliest(segments: seq<Segment>, p: real, b: real)
    requires 0.0 <= p <= b && EarliestLive(segments, p) == Some(b)
    requires exists g <- segments :: g.begin == b && g.end >= b
    ensures SecondsUntilNext(segments, b) == 0.0
  {
    EarliestIsMinimum(segments, p);
    EarliestIsMinimum(segments, b);
    forall g | g in segments && Live(g, b)
      ensures b <= g.begin
    {
      assert Live(g, p);
    }
  }

  /** The outcome is a seek to the end of a segment covering c exactly when there is
      such a segment. */
  predicate SeeksIfCovered(o: Outcome, segments: seq<Segment>, c: int) {
    && (o.seek.Some? <==> exists g <- segments :: Covers(g, c))
    && (o.seek.Some? ==> TargetCovers(o, c))
  }

  /** Past b the poll is due, and the answer to it decides. */
  lemma LateSecond(x: State, now: Clock, b: real, s: State, n: nat, c: int)
    requires Armed(x, now, b) && Waiting(x, s) && n >= 1 && Position(x, now) + n as real == c as real > b
    ensures SeeksIfCovered(Second(s, now + n), x.segments, c)
  {
    WaitingMoves(x, now, b, s, n);
    var t, p := TickStep(s, now + n), Actual(s, now + n);
    assert t == Outcome(s.(nextStart := -1.0), None, true, None);
    ReplyStep(t.state, p, now + n);
    RoundRange(Observed(true, p));
    CurrentEndIs(x.segments, Observed(true, p));
  }

  lemma {:induction false} WaitsUntil(x: State, now: Clock, b: real, n: nat)
    requires Armed(x, now, b) && (n == 0 || Position(x, now) + n as real <= b)
    ensures Waiting(x, After(x, now, n))
  {
    if n > 0 {
      WaitsUntil(x, now, b, n - 1);
      EarlySecond(x, now, b, After(x, now, n - 1), n);
    }
  }

  /** The seconds from now until the first whole second after b. */
  function Delay(x: State, now: Clock, b: real): int {
    b.Floor + 1 - Ceil(Position(x, now))
  }

  lemma NotBefore(x: State, now: Clock, b: real, k: nat)
    requires Armed(x, now, b) && 1 <= k && Position(x, now) + k as real <= b
    ensures Nth(x, now, k).seek.None?
  {
    WaitsUntil(x, now, b, k - 1);
    EarlySecond(x, now, b, After(x, now, k - 1), k);
  }

  lemma ThenExactly(x: State, now: Clock, b: real, n: nat)
    requires Armed(x, now, b) && n >= 1 && Position(x, now) + n as real == b.Floor as real + 1.0
    ensures SeeksIfCovered(Nth(x, now, n), x.segments, b.Floor + 1)
  {
    WaitsUntil(x, now, b, n - 1);
    LateSecond(x, now, b, After(x, now, n - 1), n, b.Floor + 1);
  }

  lemma DelayIs(x: State, now: Clock, b: real)
    requires Armed(x, now, b)
    ensures Delay(x, now, b) >= 1
    ensures Position(x, now) + Delay(x, now, b) as real == b.Floor as real + 1.0
  {
    PlayingWhole(x, now);
  }

  /** Nothing is sought before the first whole second after b, and in that second
      there is a seek, to the end of a segment that covers it, exactly when there is
      such a segment. */
  lemma SkipExactly(x: State, now: Clock, b: real)
    requires Armed(x, now, b)
    ensures Delay(x, now, b) >= 1
    ensures forall k :: 1 <= k < Delay(x, now, b) ==> Nth(x, now, k).seek.None?
    ensures SeeksIfCovered(Nth(x, now, Delay(x, now, b)), x.segments, b.Floor + 1)
  {
    var n := Delay(x, now, b);
    DelayIs(x, now, b);
    forall k | 1 <= k < n
      ensures Nth(x, now, k).seek.None?
    {
      NotBefore(x, now, b, k);
    }
    ThenExactly(x, now, b, n);
  }

  /** After a status that finds the segment g ahead, and g lasts two seconds, the
      machine seeks out of it in the first whole second after it begins, and not
      before. */
  lemma AheadThenSkipped(s: State, i: Input, g: Segment)
    requires Schedules(s, i) && g.end >= g.begin + 2.0
    requires var x := Next(s, i).state;
             && x.playing && x.video != "" && x.fetched <= i.now && x.lastSeek <= i.now
             && Earliest(x.segments, Position(x, i.now), g)
    ensures Armed(Next(s, i).state, i.now, g.begin)
    ensures var x, n := Next(s, i).state, Delay(Next(s, i).state, i.now, g.begin);
            && n >= 1 && TargetCovers(Nth(x, i.now, n), g.begin.Floor + 1)
            && forall k :: 1 <= k < n ==> Nth(x, i.now, k).seek.None?
  {
    ScheduleArms(s, i, g);
    TwoSecondsAreSkipped(Next(s, i).state, i.now, g);
  }

  lemma TwoSecondsAreSkipped(x: State, now: Clock, g: Segment)
    requires Armed(x, now, g.begin) && g in x.segments && g.end >= g.begin + 2.0
    ensures var n := Delay(x, now, g.begin);
            && n >= 1 && TargetCovers(Nth(x, now, n), g.begin.Floor + 1)
            && forall k :: 1 <= k < n ==> Nth(x, now, k).seek.None?
  {
    SkipExactly(x, now, g.begin);
    assert Covers(g, g.begin.Floor + 1);
  }
}
