/** When the timeout polls, and what a receiver that obeys every seek sees. */
module Polls {
  import opened Varint
  import opened Segments
  import opened SkipChain
  import opened Player
  import opened Runs

  /** The state after a status message's fields and video are taken over. */
  function Selected(s: State, msg: MediaStatus, now: int): State {
    SelectVideo(Observe(s, msg, now), msg)
  }

  function Delta(s: State, msg: MediaStatus, now: int): real {
    var x := Selected(s, msg, now);
    SecondsUntilNext(x.segments, Position(x, now))
  }

  /** The input is a status message that finds a segment ahead. */
  predicate Schedules(s: State, i: Input) {
    i.Media? && s.youtube && Delta(s, i.msg, i.now) >= 0.0
  }

  /** A scheduling step never also seeks; it sets the time of the poll. */
  lemma ScheduleEffect(s: State, i: Input)
    requires Schedules(s, i)
    ensures var x := Selected(s, i.msg, i.now);
            && Next(s, i) == Silent(x.(nextStart := i.now as real + Delta(s, i.msg, i.now)))
            && Position(x, i.now) >= 0.0 && EarliestLive(x.segments, Position(x, i.now)).Some?
  {
    var x := Selected(s, i.msg, i.now);
    NextExactly(x.segments, Position(x, i.now));
    EarliestIsMinimum(x.segments, Position(x, i.now));
    AheadNeverSeeks(Schedule(x, i.now), i.now);
  }

  /** The status step neither schedules a poll nor seeks although a segment is live. */
  predicate Neglects(s: State, i: Input) {
    && i.Media? && s.youtube && !Schedules(s, i) && Next(s, i).seek.None?
    && var x := Selected(s, i.msg, i.now);
       Position(x, i.now) >= 0.0 && exists g <- x.segments :: Live(g, Position(x, i.now))
  }

  /** That happens exactly when a live segment has begun and a seek's guards fail or
      no segment covers the current second. */
  lemma NeglectsExactly(s: State, i: Input)
    requires i.Media? && s.youtube
    ensures var x := Selected(s, i.msg, i.now);
            var p := Position(x, i.now);
            Neglects(s, i) <==>
            && p >= 0.0 && (exists g <- x.segments :: Live(g, p) && g.begin < p)
            && (x.video == "" || !x.playing || i.now - x.lastSeek < 1
                || forall g <- x.segments :: !Covers(g, Ceil(p)))
  {
    var x := Selected(s, i.msg, i.now);
    NextExactly(x.segments, Position(x, i.now));
    if !Schedules(s, i) {
      SeekExactly(x, i.now);
      assert Schedule(x, i.now) == x;
    }
  }

  /** So a segment about to end hides the ones after it, though a video is set, it
      plays and nothing was sought. */
  lemma HiddenSegment(run: seq<Input>)
    requires run == [Receiver(ReceiverStatus("YouTube", "", false)),
                     Media(MediaStatus(Some(10.0), "PLAYING", "1", "video",
                                       [Segment(0.0, 10.0), Segment(20.0, 30.0)]), 50)]
    ensures Neglects(At(run, 1), run[1]) && At(run, 2).nextStart == -1.0
    ensures var x := At(run, 2); x.video == "video" && x.playing && x.lastSeek == 0
    ensures Segment(20.0, 30.0) in At(run, 2).segments && At(run, 2).position == 10.0
  {
    AtStep(run, 0);
    AtStep(run, 1);
    var s, i := At(run, 1), run[1];
    assert s == INITIAL.(youtube := true);
    EndingSegment(s, i);
  }

  lemma EndingSegment(s: State, i: Input)
    requires s.youtube && i.Media? && i.msg.currentTime == Some(10.0) && i.msg.playerState == "PLAYING"
    requires Selected(s, i.msg, i.now).segments == [Segment(0.0, 10.0), Segment(20.0, 30.0)]
    ensures Neglects(s, i) && Next(s, i) == Silent(Selected(s, i.msg, i.now))
  {
    var x, g := Selected(s, i.msg, i.now), [Segment(0.0, 10.0), Segment(20.0, 30.0)];
    assert Position(x, i.now) == 10.0 && Ceil(10.0) == 10 && Trunc(10.0) == 10;
    assert Live(g[0], 10.0) && g[0] in g;
    assert forall h <- g :: !Covers(h, 10);
    NeglectsExactly(s, i);
  }

  /** What a step leaves of the poll time. */
  lemma NextStartAfter(s: State, i: Input)
    ensures var o := Next(s, i);
            o.state.nextStart
            == if Schedules(s, i) then i.now as real + Delta(s, i.msg, i.now)
               else if o.poll || o.seek.Some? || i.Reconnect? || Loads(s, i) then -1.0
               else s.nextStart
  {
    if Schedules(s, i) {
      ScheduleEffect(s, i);
    } else if i.Media? && s.youtube {
      var x := Selected(s, i.msg, i.now);
      assert Schedule(x, i.now) == x;
    }
  }

  /** The step schedules a poll or takes a scheduled one back. */
  ghost predicate Disturbs(run: seq<Input>, k: nat)
    requires k < |run|
  {
    || Schedules(At(run, k), run[k])
    || Polls(run, k) || Seeks(run, k) || run[k].Reconnect? || Downloads(run, k)
  }

  /** The poll scheduled by input i is still due before input n. */
  ghost predicate DueBy(run: seq<Input>, i: nat, n: nat) {
    && i < n <= |run| && Schedules(At(run, i), run[i])
    && forall k: nat :: i < k < n ==> !Disturbs(run, k)
  }

  function PollTime(s: State, i: Input): real
    requires i.Media?
  {
    i.now as real + Delta(s, i.msg, i.now)
  }

  /** A poll is due exactly when a step has scheduled it and no step since has polled,
      sought, reconnected, downloaded a new video or scheduled again; the poll time is
      the one of that step. */
  lemma {:induction false} DueExactly(run: seq<Input>, n: nat)
    requires n <= |run|
    ensures At(run, n).nextStart > 0.0 <==> exists i: nat :: DueBy(run, i, n)
    ensures forall i: nat :: DueBy(run, i, n) ==> At(run, n).nextStart == PollTime(At(run, i), run[i])
  {
    if n > 0 {
      var m: nat := n - 1;
      DueExactly(run, m);
      DownloadsLoads(run, m);
      NextStartAfter(At(run, m), run[m]);
      AtStep(run, m);
      if Schedules(At(run, m), run[m]) {
        assert DueBy(run, m, n);
      } else if i: nat :| DueBy(run, i, m) && !Disturbs(run, m) {
        DueExtends(run, i, m);
      }
      forall i: nat | DueBy(run, i, n)
        ensures i == m || (DueBy(run, i, m) && !Disturbs(run, m))
      {
      }
    }
  }

  lemma DueExtends(run: seq<Input>, i: nat, m: nat)
    requires DueBy(run, i, m) && m < |run| && !Disturbs(run, m)
    ensures DueBy(run, i, m + 1)
  {
    forall k: nat | i < k < m + 1
      ensures !Disturbs(run, k)
    {
      assert k == m || k < m;
    }
  }

  /** The program polls exactly at a timeout at which a poll is due and its time has
      come. */
  lemma PollsExactly(run: seq<Input>, j: nat)
    requires j < |run|
    ensures Polls(run, j) <==>
            run[j].Tick? && exists i: nat :: DueBy(run, i, j) && PollTime(At(run, i), run[i]) <= run[j].now as real
  {
    DueExactly(run, j);
    OnlyTicksPoll(At(run, j), run[j]);
  }

  lemma OnlyTicksPoll(s: State, i: Input)
    ensures Next(s, i).poll <==> i.Tick? && s.nextStart > 0.0 && s.nextStart <= i.now as real
  {
  }

  /** Each scheduling fires at most one poll: between two polls there is another. */
  lemma OnePollPerSchedule(run: seq<Input>, i: nat, j: nat)
    requires i < j && Polls(run, i) && Polls(run, j)
    ensures exists k: nat :: i < k < j && Schedules(At(run, k), run[k])
  {
    PollsExactly(run, i);
    PollsExactly(run, j);
    var k: nat :| DueBy(run, k, j);
    PollDisturbs(run, i);
    DueAfter(run, k, i, j);
  }

  lemma DueAfter(run: seq<Input>, k: nat, i: nat, j: nat)
    requires DueBy(run, k, j) && i < j && Disturbs(run, i) && !Schedules(At(run, i), run[i])
    ensures i < k < j && Schedules(At(run, k), run[k])
  {
  }

  lemma PollDisturbs(run: seq<Input>, i: nat)
    requires Polls(run, i)
    ensures Disturbs(run, i) && !Schedules(At(run, i), run[i])
  {
  }

  /** A status at time t, after which the machine plays or not, schedules the poll for
      the moment at which the position, rounded only while playing, reaches the begin
      of the earliest segment that has not ended. */
  lemma ReportSchedules(s: State, i: Input, p: real, g: Segment)
    requires i.Media? && s.youtube && i.msg.currentTime.Some?
    requires var playing := if i.msg.playerState == "" then s.playing else i.msg.playerState == "PLAYING";
             p == if playing then Round(i.msg.currentTime.value) as real else i.msg.currentTime.value
    requires var segments := if i.msg.videoId != "" && i.msg.videoId != s.video then i.msg.downloaded else s.segments;
             && g in segments && g.end >= p && p <= g.begin
             && forall h <- segments :: h.end >= p ==> g.begin <= h.begin
    ensures Next(s, i).state.nextStart == i.now as real + (g.begin - p) && Next(s, i).seek.None?
  {
    var x := Selected(s, i.msg, i.now);
    assert x.position == i.msg.currentTime.value && x.fetched == i.now;
    assert (i.now - i.now) as real + x.position == x.position;
    ObservedRange(true, x.position);
    assert Position(x, i.now) == p;
    assert Live(g, p);
    assert forall h <- x.segments :: Live(h, p) <==> h.end >= p;
    EarliestIsMinimum(x.segments, p);
    assert EarliestLive(x.segments, p) == Some(g.begin);
    ScheduleEffect(s, i);
  }

  predicate Quieted(run: seq<Input>, i: nat, j: nat) {
    j <= |run| && forall k: nat :: i < k < j ==> run[k].Tick? && !Polls(run, k)
  }

  lemma {:induction false} TicksKeep(run: seq<Input>, i: nat, j: nat)
    requires i < j <= |run| && Quieted(run, i, j)
    ensures At(run, j) == At(run, i + 1)
    decreases j
  {
    if i + 1 < j {
      TicksKeep(run, i, j - 1);
      assert run[j - 1].Tick? && !Polls(run, j - 1);
    }
  }

  /** If a status step while playing schedules a poll and only timeouts follow, the
      first of them that polls is the first at which the extrapolated position has
      reached the earliest live segment's begin. */
  lemma PollTiming(run: seq<Input>, i: nat, j: nat)
    requires i < j < |run| && Schedules(At(run, i), run[i]) && Quieted(run, i, j) && run[j].Tick?
    requires At(run, i + 1).playing
    ensures var x := At(run, i + 1);
            var b := EarliestLive(x.segments, Position(x, run[i].now));
            && b.Some?
            && (Polls(run, j) ==> run[j].now >= run[i].now)
            && (run[j].now >= run[i].now ==>
                (Polls(run, j) <==> Position(At(run, j), run[j].now) >= b.value))
  {
    ScheduleEffect(At(run, i), run[i]);
    TicksKeep(run, i, j);
    var x := At(run, i + 1);
    var now, t := run[i].now, run[j].now;
    ScheduledState(At(run, i), run[i], x);
    if t >= now {
      PositionMoves(x, now, t);
    }
  }

  /** What a scheduling step while playing leaves behind. */
  lemma ScheduledState(s: State, i: Input, x: State)
    requires Schedules(s, i) && x == Next(s, i).state && x.playing
    ensures var b := EarliestLive(x.segments, Position(x, i.now));
            && b.Some? && x.position >= 0.0 && Position(x, i.now) >= 0.0
            && b.value >= Position(x, i.now)
            && x.nextStart == i.now as real + (b.value - Position(x, i.now)) > 0.0
  {
    ScheduleEffect(s, i);
    var y := Selected(s, i.msg, i.now);
    assert Position(y, i.now) == Position(x, i.now);
  }

  /** Polls are not owned the way seeks are: after a reconnect the segments of the
      old video can still schedule one. */
  lemma StalePoll(run: seq<Input>)
    requires run == [Receiver(ReceiverStatus("YouTube", "", false)),
                     Media(MediaStatus(Some(1.0), "PLAYING", "1", "video", [Segment(100.0, 200.0)]), 10),
                     Reconnect,
                     Media(MediaStatus(Some(1.0), "PLAYING", "2", "", []), 20),
                     Tick(119)]
    ensures At(run, 4).video == "" && Polls(run, 4)
  {
    AtStep(run, 0);
    AtStep(run, 1);
    AtStep(run, 2);
    AtStep(run, 3);
    assert At(run, 1) == INITIAL.(youtube := true);
    FarSegment(At(run, 1), run[1]);
    assert At(run, 3) == ReconnectStep(At(run, 2));
    FarSegment(At(run, 3), run[3]);
  }

  /** A poll is scheduled from segments downloaded for the video last named on this
      connection exactly when a video is set before the step or named by it. */
  lemma ScheduleOwned(run: seq<Input>, k: nat)
    requires k < |run| && Schedules(At(run, k), run[k])
    ensures At(run, k).video != "" || run[k].msg.videoId != "" <==>
            exists n: nat, d: nat :: NamedBy(run, n, k + 1) && DownloadedBy(run, d, k + 1)
                                  && run[d].msg.videoId == run[n].msg.videoId
                                  && At(run, k + 1).segments == run[d].msg.downloaded
  {
    var after := k + 1;
    SegmentsAfter(At(run, k), run[k]);
    AtStep(run, k);
    if At(run, after).video != "" {
      var n, d := SetVideoOwnsSegments(run, after);
    }
    if n: nat :| NamedBy(run, n, after) {
      NamedIsLast(run, n, after);
      VideoIsLastNamed(run, after);
    }
  }

  /** A status at position 1 with a segment from 100 to 200. */
  lemma FarSegment(s: State, i: Input)
    requires s.youtube && i.Media? && i.msg.currentTime == Some(1.0) && i.msg.playerState == "PLAYING"
    requires Selected(s, i.msg, i.now).segments == [Segment(100.0, 200.0)]
    ensures var x := Next(s, i).state;
            && x.segments == [Segment(100.0, 200.0)] && x.video == Selected(s, i.msg, i.now).video
            && x.youtube && x.nextStart == i.now as real + 99.0
  {
    var x, g := Selected(s, i.msg, i.now), [Segment(100.0, 200.0)];
    assert Position(x, i.now) == 1.0;
    assert g[0] in g && Live(g[0], 1.0);
    EarliestIsMinimum(g, 1.0);
    assert EarliestLive(g, 1.0) == Some(100.0);
    ScheduleEffect(s, i);
  }

  // ---- a receiver that obeys ----

  /** The status of a receiver that plays at position t and names no new video. */
  function Reply(t: Time, now: Clock): Input {
    Media(MediaStatus(Some(t), "PLAYING", "", "", []), now)
  }

  /** The machine may seek at time now. */
  predicate Ready(s: State, now: Clock) {
    s.youtube && s.video != "" && now - s.lastSeek >= 1
  }

  /** The answer to such a status: a seek exactly to the end that the chain jumps to. */
  lemma ReplyStep(s: State, t: Time, now: Clock)
    requires Ready(s, now)
    ensures var o, e := Next(s, Reply(t, now)), CurrentEnd(s.segments, Observed(true, t));
            && (e < 0.0 ==> o.seek.None?)
            && (e >= 0.0 ==> o.seek.Some? && o.seek.value.target == e && Ready(o.state, now + 1))
            && o.state.segments == s.segments
  {
    var i := Reply(t, now);
    var x := Selected(s, i.msg, now);
    assert x == s.(position := t, fetched := now, playing := true);
    assert (now - now) as real + t == t;
    assert Position(x, now) == Observed(true, t);
    ReplySeeks(x, t, now);
  }

  lemma ReplySeeks(x: State, t: Time, now: Clock)
    requires Ready(x, now) && x.playing && Position(x, now) == Observed(true, t)
    ensures var o, e := SeekStep(Schedule(x, now), now), CurrentEnd(x.segments, Observed(true, t));
            && (e < 0.0 ==> o.seek.None?)
            && (e >= 0.0 && x.segments != [] ==>
                o.seek.Some? && o.seek.value.target == e && Ready(o.state, now + 1))
            && o.state.segments == x.segments
    ensures x.segments == [] ==> CurrentEnd(x.segments, Observed(true, t)) < 0.0
  {
    ScheduleKeeps(x, now);
    assert Position(Schedule(x, now), now) == Position(x, now);
  }

  /** The targets sought when each seek is answered, a second later, by a status that
      reports its target. */
  function ObedientTargets(s: State, t: Time, now: Clock): seq<real>
    requires Ready(s, now)
    decreases Remaining(s.segments, Ceil(Observed(true, t)))
  {
    var o := Next(s, Reply(t, now));
    ReplyStep(s, t, now);
    if o.seek.None? then []
    else
      JumpDrops(s.segments, true, Observed(true, t));
      [o.seek.value.target] + ObedientTargets(o.state, o.seek.value.target, now + 1)
  }

  lemma {:induction false} ObedientTargetsAre(s: State, t: Time, now: Clock)
    requires Ready(s, now)
    ensures ObedientTargets(s, t, now) == Targets(s.segments, true, Observed(true, t))
    decreases Remaining(s.segments, Ceil(Observed(true, t)))
  {
    var o := Next(s, Reply(t, now));
    ReplyStep(s, t, now);
    if o.seek.Some? {
      JumpDrops(s.segments, true, Observed(true, t));
      ObedientTargetsAre(o.state, o.seek.value.target, now + 1);
    }
  }

  /** The position reported last: the last target, or t if there is none. */
  function LastReported(s: State, t: Time, now: Clock): real
    requires Ready(s, now)
  {
    var targets := ObedientTargets(s, t, now);
    if targets == [] then t else targets[|targets| - 1]
  }

  /** The machine walks the skip chain: at most one seek for each segment, and the
      position reported last, which it does not answer, is one that no segment
      covers. */
  lemma ObedientChain(s: State, t: Time, now: Clock)
    requires Ready(s, now)
    ensures ObedientTargets(s, t, now) == Targets(s.segments, true, Observed(true, t))
    ensures |ObedientTargets(s, t, now)| <= |s.segments|
    ensures var rest := Observed(true, LastReported(s, t, now));
            && rest == Rest(s.segments, true, Observed(true, t))
            && forall g <- s.segments :: !Covers(g, Ceil(rest))
  {
    var current := Observed(true, t);
    ObservedRange(true, t);
    RoundRange(current);
    ObedientTargetsAre(s, t, now);
    FewJumps(s.segments, true, current);
    RestIsLast(s.segments, true, current);
    OnlySegmentsSkipped(s.segments, true, current);
  }
}
