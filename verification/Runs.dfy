/** Safety of the skip state machine over every run, reconnects included. */
module Runs {
  import opened Varint
  import opened Segments
  import opened Player

  /** What can happen between two turns of the loop.  Quiet is any other message. */
  datatype Input =
    | Media(msg: MediaStatus, now: Clock)
    | Receiver(status: ReceiverStatus)
    | Tick(now: Clock)
    | Reconnect
    | Quiet

  function Next(s: State, i: Input): Outcome {
    match i
    case Media(msg, now) => MediaStep(s, msg, now)
    case Receiver(status) => ReceiverStep(s, status)
    case Tick(now) => TickStep(s, now)
    case Reconnect => Silent(ReconnectStep(s))
    case Quiet => Silent(s)
  }

  /** The state before input n, from the program's start. */
  function At(run: seq<Input>, n: nat): State
    requires n <= |run|
  {
    if n == 0 then INITIAL else Next(At(run, n - 1), run[n - 1]).state
  }

  predicate Seeks(run: seq<Input>, n: nat) {
    n < |run| && Next(At(run, n), run[n]).seek.Some?
  }

  predicate Polls(run: seq<Input>, n: nat) {
    n < |run| && Next(At(run, n), run[n]).poll
  }

  /** A MEDIA_STATUS that carries a current time. */
  predicate Reports(i: Input) {
    i.Media? && i.msg.currentTime.Some?
  }

  // ---- what one input changes ----

  /** The state in which maybeSeek is called in a status step. */
  function Prepared(s: State, msg: MediaStatus, now: int): State {
    Schedule(SelectVideo(Observe(s, msg, now), msg), now)
  }

  /** The input makes the step download segments. */
  predicate Loads(s: State, i: Input) {
    i.Media? && s.youtube && NewVideo(s, i.msg)
  }

  lemma SeekComesFrom(s: State, i: Input)
    requires Next(s, i).seek.Some?
    ensures i.Media? && s.youtube
    ensures Next(s, i) == SeekStep(Prepared(s, i.msg, i.now), i.now)
  {
  }

  /** After a seek the position is unknown and the time is recorded. */
  lemma AfterSeek(s: State, i: Input)
    requires Next(s, i).seek.Some?
    ensures var after := Next(s, i).state;
            && i.Media? && after.position == -1.0 && after.playing && after.video != ""
            && after.lastSeek == i.now >= s.lastSeek + 1
  {
  }

  /** lastSeek only changes to the time of a seek, and only grows. */
  lemma LastSeekAfter(s: State, i: Input)
    ensures Next(s, i).state.lastSeek >= s.lastSeek
  {
    if Next(s, i).seek.Some? {
      AfterSeek(s, i);
    }
  }

  lemma SeekKeeps(s: State, now: int)
    ensures var after := SeekStep(s, now).state;
            after.segments == s.segments && after.video == s.video
    ensures PositionValid(s) ==> PositionValid(SeekStep(s, now).state)
  {
  }

  lemma ScheduleKeeps(s: State, now: int)
    ensures Schedule(s, now) == s.(nextStart := Schedule(s, now).nextStart)
  {
  }

  lemma MediaKeeps(s: State, msg: MediaStatus, now: Clock)
    ensures var after, loads := MediaStep(s, msg, now).state, s.youtube && NewVideo(s, msg);
            && after.segments == (if loads then msg.downloaded else s.segments)
            && after.video == (if loads then msg.videoId else s.video)
  {
    var selected := SelectVideo(Observe(s, msg, now), msg);
    ScheduleKeeps(selected, now);
    SeekKeeps(Schedule(selected, now), now);
  }

  lemma MediaKeepsValid(s: State, msg: MediaStatus, now: Clock)
    requires PositionValid(s)
    ensures PositionValid(MediaStep(s, msg, now).state)
  {
    var selected := SelectVideo(Observe(s, msg, now), msg);
    assert PositionValid(selected);
    ScheduleKeeps(selected, now);
    SeekKeeps(Schedule(selected, now), now);
  }

  lemma SegmentsAfter(s: State, i: Input)
    ensures var after := Next(s, i).state;
            && after.segments == (if Loads(s, i) then i.msg.downloaded else s.segments)
            && after.video == (if Loads(s, i) then i.msg.videoId
                               else if i.Reconnect? then "" else s.video)
  {
    if i.Media? {
      MediaKeeps(s, i.msg, i.now);
    }
  }

  lemma PlayingAfter(s: State, i: Input)
    ensures Next(s, i).state.playing
         == if i.Media? && i.msg.playerState != "" then i.msg.playerState == "PLAYING" else s.playing
  {
  }

  lemma YouTubeAfter(s: State, i: Input)
    ensures Next(s, i).state.youtube
         == if i.Receiver? && i.status.displayName != "" then i.status.displayName == "YouTube" else s.youtube
  {
  }

  lemma PositionAfter(s: State, i: Input)
    requires PositionValid(s)
    ensures PositionValid(Next(s, i).state)
  {
    if i.Media? {
      MediaKeepsValid(s, i.msg, i.now);
    }
  }

  // ---- seeks ----

  /** Position and fetch time stay valid or invalid together. */
  lemma {:induction false} PositionInvariant(run: seq<Input>, n: nat)
    requires n <= |run|
    ensures PositionValid(At(run, n))
  {
    if n > 0 {
      PositionInvariant(run, n - 1);
      PositionAfter(At(run, n - 1), run[n - 1]);
    }
  }

  predicate Unknown(s: State) {
    s.position <= -1.0
  }

  /** Without a current time nothing makes an unknown position known, and from an
      unknown position no seek is attempted. */
  lemma UnknownStays(s: State, i: Input)
    requires Unknown(s) && !Reports(i)
    ensures Unknown(Next(s, i).state) && Next(s, i).seek.None?
  {
    if i.Media? && s.youtube {
      var p := Prepared(s, i.msg, i.now);
      assert Ceil(Position(p, i.now)) < 0;
      SeekExactly(p, i.now);
    }
  }

  lemma {:induction false} UnknownUntilReport(run: seq<Input>, n: nat, k: nat)
    requires n <= k <= |run| && Unknown(At(run, n))
    requires forall j :: n <= j < k ==> !Reports(run[j])
    ensures Unknown(At(run, k))
    decreases k
  {
    if n < k {
      UnknownUntilReport(run, n, k - 1);
      UnknownStays(At(run, k - 1), run[k - 1]);
    }
  }

  /** Between two seek attempts a MEDIA_STATUS with a current time is handled, at the
      latest in the second attempt's own step. */
  lemma FreshPositionBetweenSeeks(run: seq<Input>, i: nat, j: nat)
    requires i < j && Seeks(run, i) && Seeks(run, j)
    ensures exists k :: i < k <= j && Reports(run[k])
  {
    if forall k :: i < k <= j ==> !Reports(run[k]) {
      AfterSeek(At(run, i), run[i]);
      UnknownUntilReport(run, i + 1, j);
      UnknownStays(At(run, j), run[j]);
    }
  }

  /** lastSeek keeps the time of the last attempt. */
  lemma {:induction false} LastSeekGrows(run: seq<Input>, i: nat, j: nat)
    requires i < j <= |run| && Seeks(run, i)
    ensures At(run, j).lastSeek >= run[i].now
    decreases j
  {
    if i + 1 < j {
      LastSeekGrows(run, i, j - 1);
      LastSeekAfter(At(run, j - 1), run[j - 1]);
    } else {
      AfterSeek(At(run, i), run[i]);
    }
  }

  /** Recorded seek times are at least a second apart, however the clock moves. */
  lemma SeeksApart(run: seq<Input>, i: nat, j: nat)
    requires i < j && Seeks(run, i) && Seeks(run, j)
    ensures run[i].Media? && run[j].Media?
    ensures At(run, i + 1).lastSeek == run[i].now && At(run, j + 1).lastSeek == run[j].now
    ensures run[j].now >= run[i].now + 1
  {
    AfterSeek(At(run, i), run[i]);
    AfterSeek(At(run, j), run[j]);
    LastSeekGrows(run, i, j);
  }

  // ---- which position ----

  predicate Known(s: State) {
    s.position >= 0.0
  }

  /** What an input leaves of the position: a report sets it, a seek or a reconnect
      makes it unknown, anything else keeps it. */
  lemma KnownAfter(s: State, i: Input)
    ensures var o := Next(s, i);
            && (Known(o.state) ==> o.seek.None? && !i.Reconnect?)
            && (Known(o.state) && Reports(i) ==>
                o.state.position == i.msg.currentTime.value && o.state.fetched == i.now)
            && (Known(o.state) && !Reports(i) ==>
                o.state.position == s.position && o.state.fetched == s.fetched)
  {
    if i.Media? {
      var selected := SelectVideo(Observe(s, i.msg, i.now), i.msg);
      ScheduleKeeps(selected, i.now);
    }
  }

  /** Input k is the last report of a current time before input n, and since then
      there was no seek and no reconnect. */
  predicate ReportedBy(run: seq<Input>, k: nat, n: nat) {
    && k < n <= |run| && Reports(run[k]) && !Seeks(run, k)
    && forall j: nat :: k < j < n ==> !Reports(run[j]) && !Seeks(run, j) && !run[j].Reconnect?
  }

  /** The state holds the position and time that the input reported. */
  predicate HoldsReport(s: State, i: Input) {
    Reports(i) && s.position == i.msg.currentTime.value && s.fetched == i.now
  }

  lemma ReportExtends(run: seq<Input>, k: nat, m: nat)
    requires ReportedBy(run, k, m) && m < |run|
    requires !Reports(run[m]) && !Seeks(run, m) && !run[m].Reconnect?
    ensures ReportedBy(run, k, m + 1)
  {
  }

  lemma AtStep(run: seq<Input>, n: nat)
    requires n < |run|
    ensures At(run, n + 1) == Next(At(run, n), run[n]).state
    ensures At(run, 0) == INITIAL
  {
  }

  /** A known position is the one last reported, with the time of that report. */
  lemma {:induction false} PositionWasReported(run: seq<Input>, n: nat) returns (k: nat)
    requires n <= |run| && Known(At(run, n))
    ensures ReportedBy(run, k, n) && HoldsReport(At(run, n), run[k])
  {
    k := n - 1;
    var before, i := At(run, k), run[k];
    AtStep(run, k);
    KnownAfter(before, i);
    if !Reports(i) {
      k := PositionWasReported(run, n - 1);
      ReportExtends(run, k, n - 1);
    }
  }

  /** The last report that step j uses: its own, or an earlier one. */
  predicate ReportUsed(run: seq<Input>, k: nat, j: nat) {
    k <= j < |run| && Reports(run[k]) && (k == j || (ReportedBy(run, k, j) && !Reports(run[j])))
  }

  /** The seek goes to the end of a segment that covers the whole second c. */
  predicate TargetCovers(o: Outcome, c: int) {
    o.seek.Some? && exists g <- o.state.segments :: g.end == o.seek.value.target && Covers(g, c)
  }

  /** The position reported by an input, moved on to time now and rounded. */
  function Extrapolated(i: Input, now: int): int
    requires Reports(i)
  {
    Round((now - i.now) as real + i.msg.currentTime.value)
  }

  /** The position and fetch time that a status step seeks by. */
  function SoughtFrom(s: State, i: Input): (real, int)
    requires i.Media?
  {
    if Reports(i) then (i.msg.currentTime.value, i.now) else (s.position, s.fetched)
  }

  lemma SeekCovers(s: State, i: Input)
    requires Next(s, i).seek.Some? && i.Media?
    ensures var (t, f) := SoughtFrom(s, i);
            t >= 0.0 && TargetCovers(Next(s, i), Round((i.now - f) as real + t))
  {
    var p := Prepared(s, i.msg, i.now);
    SeekComesFrom(s, i);
    SeekExactly(p, i.now);
    PositionWhole(p, i.now);
    ScheduleKeeps(SelectVideo(Observe(s, i.msg, i.now), i.msg), i.now);
    assert (p.position, p.fetched) == SoughtFrom(s, i);
    SeekKeeps(p, i.now);
  }

  /** Every seek is made at the last reported time plus the seconds since, rounded,
      and that whole second lies in the segment whose end is sought. */
  lemma SeekAtExtrapolated(run: seq<Input>, j: nat)
    requires Seeks(run, j) && run[j].Media?
    ensures exists k: nat :: ReportUsed(run, k, j)
              && TargetCovers(Next(At(run, j), run[j]), Extrapolated(run[k], run[j].now))
  {
    var s, i := At(run, j), run[j];
    if Reports(i) {
      SeekUsing(s, i, i);
      assert ReportUsed(run, j, j);
    } else {
      SeekCovers(s, i);
      var k := PositionWasReported(run, j);
      SeekUsing(s, i, run[k]);
      assert ReportUsed(run, k, j);
    }
  }

  lemma SeekUsing(s: State, i: Input, r: Input)
    requires Next(s, i).seek.Some? && i.Media? && Reports(r)
    requires SoughtFrom(s, i) == (r.msg.currentTime.value, r.now)
    ensures TargetCovers(Next(s, i), Extrapolated(r, i.now))
  {
    SeekCovers(s, i);
  }

  lemma PositionWhole(p: State, now: int)
    requires p.playing && Ceil(Position(p, now)) >= 0
    ensures p.position >= 0.0
    ensures Ceil(Position(p, now)) == Round((now - p.fetched) as real + p.position)
  {
    if p.position >= 0.0 {
      RoundRange((now - p.fetched) as real + p.position);
    }
  }

  // ---- the media session ----

  predicate NamesSession(i: Input) {
    i.Media? && i.msg.mediaSession != ""
  }

  lemma SessionAfter(s: State, i: Input)
    ensures Next(s, i).state.mediaSession
         == if NamesSession(i) then i.msg.mediaSession else if i.Reconnect? then "" else s.mediaSession
  {
    if i.Media? {
      var selected := SelectVideo(Observe(s, i.msg, i.now), i.msg);
      ScheduleKeeps(selected, i.now);
    }
  }

  /** The media session last named since the connection was made, or none. */
  function LastSession(run: seq<Input>, n: nat): string
    requires n <= |run|
  {
    if n == 0 || run[n - 1].Reconnect? then ""
    else if NamesSession(run[n - 1]) then run[n - 1].msg.mediaSession
    else LastSession(run, n - 1)
  }

  lemma {:induction false} SessionWasReported(run: seq<Input>, n: nat)
    requires n <= |run|
    ensures At(run, n).mediaSession == LastSession(run, n)
  {
    if n > 0 {
      SessionWasReported(run, n - 1);
      SessionAfter(At(run, n - 1), run[n - 1]);
    }
  }

  /** A seek is sent exactly when this connection has named a media session. */
  lemma SentWithSession(run: seq<Input>, n: nat)
    requires Seeks(run, n)
    ensures Next(At(run, n), run[n]).seek.value.sent <==> LastSession(run, n + 1) != ""
  {
    SessionWasReported(run, n + 1);
    SeekSent(At(run, n), run[n]);
  }

  lemma SeekSent(s: State, i: Input)
    requires Next(s, i).seek.Some?
    ensures Next(s, i).seek.value.sent <==> Next(s, i).state.mediaSession != ""
  {
  }

  /** The receiver session last named since the connection was made, or none. */
  function LastDest(run: seq<Input>, n: nat): string
    requires n <= |run|
  {
    if n == 0 || run[n - 1].Reconnect? then ""
    else if run[n - 1].Receiver? && run[n - 1].status.sessionId != "" then run[n - 1].status.sessionId
    else LastDest(run, n - 1)
  }

  lemma DestAfter(s: State, i: Input)
    ensures Next(s, i).state.dest
         == if i.Receiver? && i.status.sessionId != "" then i.status.sessionId
            else if i.Reconnect? then "" else s.dest
  {
    if i.Media? {
      var selected := SelectVideo(Observe(s, i.msg, i.now), i.msg);
      ScheduleKeeps(selected, i.now);
    }
  }

  lemma {:induction false} DestWasReported(run: seq<Input>, n: nat)
    requires n <= |run|
    ensures At(run, n).dest == LastDest(run, n)
  {
    if n > 0 {
      DestWasReported(run, n - 1);
      DestAfter(At(run, n - 1), run[n - 1]);
    }
  }

  /** Every seek is addressed to the receiver session last named on this connection. */
  lemma SeekAddressed(run: seq<Input>, n: nat)
    requires Seeks(run, n)
    ensures Next(At(run, n), run[n]).seek.value.dest == LastDest(run, n)
  {
    DestWasReported(run, n);
    SeekDest(At(run, n), run[n]);
  }

  lemma SeekDest(s: State, i: Input)
    requires Next(s, i).seek.Some?
    ensures Next(s, i).seek.value.dest == s.dest
  {
  }

  /** Connecting to the receiver session and asking for the media status happens
      exactly on a status that mentions the media namespace, and the session is the
      last one named, by that status itself if it names one. */
  lemma AsksExactly(run: seq<Input>, n: nat)
    requires n < |run|
    ensures Next(At(run, n), run[n]).asks
         == if run[n].Receiver? && run[n].status.media then Some(LastDest(run, n + 1)) else None
  {
    DestWasReported(run, n + 1);
    OnlyReceiverAsks(At(run, n), run[n]);
  }

  lemma OnlyReceiverAsks(s: State, i: Input)
    ensures Next(s, i).asks == if i.Receiver? && i.status.media then Some(Next(s, i).state.dest) else None
  {
  }

  // ---- playing, and in YouTube ----

  predicate SaysOther(i: Input) {
    i.Media? && i.msg.playerState != "" && i.msg.playerState != "PLAYING"
  }

  /** Input k reports PLAYING and no later one, before input n, another state. */
  predicate PlayingSince(run: seq<Input>, k: nat, n: nat) {
    && k < n <= |run| && run[k].Media? && run[k].msg.playerState == "PLAYING"
    && forall j :: k < j < n ==> !SaysOther(run[j])
  }

  ghost predicate WasPlaying(run: seq<Input>, n: nat) {
    exists k: nat :: PlayingSince(run, k, n)
  }

  lemma PlayingStep(run: seq<Input>, m: nat, n: nat)
    requires n == m + 1 <= |run|
    ensures WasPlaying(run, n) <==>
            if run[m].Media? && run[m].msg.playerState == "PLAYING" then true
            else WasPlaying(run, m) && !SaysOther(run[m])
  {
    if run[m].Media? && run[m].msg.playerState == "PLAYING" {
      assert PlayingSince(run, m, n);
    } else {
      assert forall k: nat :: PlayingSince(run, k, n) ==> k < m && PlayingSince(run, k, m);
      assert !SaysOther(run[m]) ==> forall k: nat :: PlayingSince(run, k, m) ==> PlayingSince(run, k, n);
    }
  }

  /** The machine believes it plays exactly when the last reported state is PLAYING. */
  lemma {:induction false} PlayingWasReported(run: seq<Input>, n: nat)
    requires n <= |run|
    ensures At(run, n).playing <==> WasPlaying(run, n)
  {
    if n > 0 {
      PlayingWasReported(run, n - 1);
      PlayingAfter(At(run, n - 1), run[n - 1]);
      PlayingStep(run, n - 1, n);
    }
  }

  predicate NamesOther(i: Input) {
    i.Receiver? && i.status.displayName != "" && i.status.displayName != "YouTube"
  }

  predicate YouTubeSince(run: seq<Input>, k: nat, n: nat) {
    && k < n <= |run| && run[k].Receiver? && run[k].status.displayName == "YouTube"
    && forall j :: k < j < n ==> !NamesOther(run[j])
  }

  ghost predicate WasYouTube(run: seq<Input>, n: nat) {
    exists k: nat :: YouTubeSince(run, k, n)
  }

  lemma YouTubeStep(run: seq<Input>, m: nat, n: nat)
    requires n == m + 1 <= |run|
    ensures WasYouTube(run, n) <==>
            if run[m].Receiver? && run[m].status.displayName == "YouTube" then true
            else WasYouTube(run, m) && !NamesOther(run[m])
  {
    if run[m].Receiver? && run[m].status.displayName == "YouTube" {
      assert YouTubeSince(run, m, n);
    } else {
      assert forall k: nat :: YouTubeSince(run, k, n) ==> k < m && YouTubeSince(run, k, m);
      assert !NamesOther(run[m]) ==> forall k: nat :: YouTubeSince(run, k, m) ==> YouTubeSince(run, k, n);
    }
  }

  /** It takes the application for YouTube exactly when that is the last one reported. */
  lemma {:induction false} YouTubeWasReported(run: seq<Input>, n: nat)
    requires n <= |run|
    ensures At(run, n).youtube <==> WasYouTube(run, n)
  {
    if n > 0 {
      YouTubeWasReported(run, n - 1);
      YouTubeAfter(At(run, n - 1), run[n - 1]);
      YouTubeStep(run, n - 1, n);
    }
  }

  /** A seek is attempted only while the last reported state is PLAYING and the last
      reported application is YouTube. */
  lemma SeekOnlyPlayingYouTube(run: seq<Input>, j: nat)
    requires Seeks(run, j)
    ensures WasPlaying(run, j + 1) && WasYouTube(run, j)
  {
    AfterSeek(At(run, j), run[j]);
    SeekComesFrom(At(run, j), run[j]);
    PlayingWasReported(run, j + 1);
    YouTubeWasReported(run, j);
  }

  // ---- whose segments ----

  /** Input k names a video while the last reported application is YouTube. */
  ghost predicate Names(run: seq<Input>, k: nat) {
    k < |run| && run[k].Media? && run[k].msg.videoId != "" && WasYouTube(run, k)
  }

  /** The video last named since the connection was made, or none. */
  ghost function LastVideo(run: seq<Input>, n: nat): string
    requires n <= |run|
  {
    if n == 0 || run[n - 1].Reconnect? then ""
    else if Names(run, n - 1) then run[n - 1].msg.videoId
    else LastVideo(run, n - 1)
  }

  /** The current video is the one last named since the connection was made. */
  lemma {:induction false} VideoIsLastNamed(run: seq<Input>, n: nat)
    requires n <= |run|
    ensures At(run, n).video == LastVideo(run, n)
  {
    if n > 0 {
      VideoIsLastNamed(run, n - 1);
      YouTubeWasReported(run, n - 1);
      SegmentsAfter(At(run, n - 1), run[n - 1]);
    }
  }

  /** Input k is the last one to name a video before input n, on the same connection. */
  ghost predicate NamedBy(run: seq<Input>, k: nat, n: nat) {
    && k < n <= |run| && Names(run, k)
    && (forall j: nat :: k < j < n ==> !Names(run, j) && !run[j].Reconnect?)
  }

  lemma {:induction false} NamedIsLast(run: seq<Input>, k: nat, n: nat)
    requires NamedBy(run, k, n)
    ensures LastVideo(run, n) == run[k].msg.videoId != ""
    decreases n
  {
    if k + 1 < n {
      NamedIsLast(run, k, n - 1);
    }
  }

  lemma {:induction false} LastIsNamed(run: seq<Input>, n: nat) returns (k: nat)
    requires n <= |run| && LastVideo(run, n) != ""
    ensures NamedBy(run, k, n)
  {
    k := n - 1;
    if !Names(run, k) {
      k := LastIsNamed(run, n - 1);
    }
  }

  /** Input k names a video other than the last one named on this connection. */
  ghost predicate Downloads(run: seq<Input>, k: nat) {
    Names(run, k) && run[k].msg.videoId != LastVideo(run, k)
  }

  lemma DownloadsLoads(run: seq<Input>, k: nat)
    requires k < |run|
    ensures Downloads(run, k) <==> Loads(At(run, k), run[k])
  {
    YouTubeWasReported(run, k);
    VideoIsLastNamed(run, k);
  }

  /** Input k is the last download before input n. */
  ghost predicate DownloadedBy(run: seq<Input>, k: nat, n: nat) {
    k < n <= |run| && Downloads(run, k) && forall j: nat :: k < j < n ==> !Downloads(run, j)
  }

  ghost predicate NothingDownloaded(run: seq<Input>, n: nat) {
    n <= |run| && forall j: nat :: j < n ==> !Downloads(run, j)
  }

  /** The state has the segments of the input's download, and its video unless a
      reconnect cleared it. */
  predicate HoldsDownload(s: State, i: Input) {
    i.Media? && s.segments == i.msg.downloaded && (s.video == i.msg.videoId || s.video == "")
  }

  lemma DownloadExtends(run: seq<Input>, k: nat, m: nat, n: nat)
    requires n == m + 1 <= |run| && !Downloads(run, m)
    requires DownloadedBy(run, k, m) && HoldsDownload(At(run, m), run[k])
    ensures DownloadedBy(run, k, n) && HoldsDownload(At(run, n), run[k])
  {
    SegmentsAfter(At(run, m), run[m]);
    DownloadsLoads(run, m);
    AtStep(run, m);
  }

  /** The segments are those most recently downloaded, for the current video if one
      is set. */
  lemma {:induction false} SegmentOwnership(run: seq<Input>, n: nat)
    requires n <= |run|
    ensures (NothingDownloaded(run, n) && At(run, n).segments == [] && At(run, n).video == "")
         || exists k: nat :: DownloadedBy(run, k, n) && HoldsDownload(At(run, n), run[k])
  {
    if n > 0 {
      var m: nat := n - 1;
      SegmentOwnership(run, m);
      SegmentsAfter(At(run, m), run[m]);
      DownloadsLoads(run, m);
      AtStep(run, m);
      if Downloads(run, m) {
        assert DownloadedBy(run, m, n) && HoldsDownload(At(run, n), run[m]);
      } else if k: nat :| DownloadedBy(run, k, m) && HoldsDownload(At(run, m), run[k]) {
        DownloadExtends(run, k, m, n);
      } else {
        assert NothingDownloaded(run, n);
      }
    }
  }

  /** If a video is set, the segments were downloaded for the video last named on
      this connection. */
  lemma SetVideoOwnsSegments(run: seq<Input>, n: nat) returns (k: nat, d: nat)
    requires n <= |run| && At(run, n).video != ""
    ensures NamedBy(run, k, n) && DownloadedBy(run, d, n)
    ensures run[d].msg.videoId == run[k].msg.videoId && At(run, n).segments == run[d].msg.downloaded
  {
    VideoIsLastNamed(run, n);
    k := LastIsNamed(run, n);
    NamedIsLast(run, k, n);
    SegmentOwnership(run, n);
    d :| DownloadedBy(run, d, n) && HoldsDownload(At(run, n), run[d]);
  }

  lemma SeekTargetIsEnd(s: State, i: Input)
    requires Next(s, i).seek.Some?
    ensures exists g <- Next(s, i).state.segments :: g.end == Next(s, i).seek.value.target
  {
    SeekComesFrom(s, i);
    var p := Prepared(s, i.msg, i.now);
    SeekExactly(p, i.now);
    assert Next(s, i).state.segments == p.segments;
  }

  /** Every seek goes to the end of a segment most recently downloaded, and
      downloaded for the video last named on this connection, although reconnecting
      keeps the old segments. */
  lemma SeekTargetOwned(run: seq<Input>, j: nat)
    requires Seeks(run, j)
    ensures exists k: nat, d: nat ::
              && NamedBy(run, k, j + 1) && DownloadedBy(run, d, j + 1)
              && run[d].msg.videoId == run[k].msg.videoId
              && exists g <- run[d].msg.downloaded :: g.end == Next(At(run, j), run[j]).seek.value.target
  {
    AfterSeek(At(run, j), run[j]);
    SeekTargetIsEnd(At(run, j), run[j]);
    var k, d := SetVideoOwnsSegments(run, j + 1);
  }

  // ---- every seek, from what was received ----

  /** The time of the last seek attempted, or 0. */
  function LastSought(run: seq<Input>, n: nat): int
    requires n <= |run|
  {
    if n == 0 then 0
    else if Seeks(run, n - 1) && run[n - 1].Media? then run[n - 1].now
    else LastSought(run, n - 1)
  }

  lemma LastSeekStep(s: State, i: Input)
    ensures Next(s, i).state.lastSeek == if Next(s, i).seek.Some? && i.Media? then i.now else s.lastSeek
  {
    if i.Media? {
      ScheduleKeeps(SelectVideo(Observe(s, i.msg, i.now), i.msg), i.now);
    }
  }

  lemma {:induction false} LastSeekWasSought(run: seq<Input>, n: nat)
    requires n <= |run|
    ensures At(run, n).lastSeek == LastSought(run, n)
  {
    if n > 0 {
      LastSeekWasSought(run, n - 1);
      LastSeekStep(At(run, n - 1), run[n - 1]);
    }
  }

  /** The segments of the last download, or none. */
  ghost function LastDownload(run: seq<Input>, n: nat): seq<Segment>
    requires n <= |run|
  {
    if n == 0 then []
    else if Downloads(run, n - 1) then run[n - 1].msg.downloaded
    else LastDownload(run, n - 1)
  }

  lemma {:induction false} SegmentsWereDownloaded(run: seq<Input>, n: nat)
    requires n <= |run|
    ensures At(run, n).segments == LastDownload(run, n)
  {
    if n > 0 {
      SegmentsWereDownloaded(run, n - 1);
      DownloadsLoads(run, n - 1);
      SegmentsAfter(At(run, n - 1), run[n - 1]);
    }
  }

  lemma ReportKept(s: State, i: Input)
    requires Next(s, i).seek.None? && !i.Reconnect?
    ensures Reports(i) ==> HoldsReport(Next(s, i).state, i)
    ensures !Reports(i) ==> Next(s, i).state.position == s.position && Next(s, i).state.fetched == s.fetched
  {
    if i.Media? {
      ScheduleKeeps(SelectVideo(Observe(s, i.msg, i.now), i.msg), i.now);
    }
  }

  lemma {:induction false} ReportIsHeld(run: seq<Input>, k: nat, n: nat)
    requires ReportedBy(run, k, n)
    ensures HoldsReport(At(run, n), run[k])
    decreases n
  {
    ReportKept(At(run, n - 1), run[n - 1]);
    if k + 1 < n {
      ReportIsHeld(run, k, n - 1);
    }
  }

  /** A segment of the last download covers the second at which the report used by
      step j, of input k, has arrived. */
  ghost predicate CoveredAt(run: seq<Input>, k: nat, j: nat) {
    && ReportUsed(run, k, j) && run[j].Media?
    && Extrapolated(run[k], run[j].now) >= 0
    && exists g <- LastDownload(run, j + 1) :: Covers(g, Extrapolated(run[k], run[j].now))
  }

  /** The last reported application is YouTube, the last reported state PLAYING, a
      video was named on this connection, and the last seek is a second ago. */
  ghost predicate MaySeek(run: seq<Input>, j: nat) {
    && j < |run| && run[j].Media? && WasYouTube(run, j) && WasPlaying(run, j + 1)
    && LastVideo(run, j + 1) != "" && run[j].now - LastSought(run, j) >= 1
  }

  lemma MaySeekMeans(run: seq<Input>, j: nat)
    requires j < |run| && run[j].Media?
    ensures MaySeek(run, j) <==> At(run, j).youtube && Guards(run, j)
  {
    YouTubeWasReported(run, j);
    PlayingWasReported(run, j + 1);
    VideoIsLastNamed(run, j + 1);
    LastSeekWasSought(run, j);
  }

  /** A status step seeks exactly when it may and a segment covers the position last
      reported since the last seek or reconnect, moved on to the present. */
  lemma SeeksExactly(run: seq<Input>, j: nat)
    requires j < |run|
    ensures Seeks(run, j) <==> MaySeek(run, j) && exists k: nat :: CoveredAt(run, k, j)
  {
    if run[j].Media? {
      MaySeekMeans(run, j);
    }
    if run[j].Media? && At(run, j).youtube {
      SeeksFor(run, j);
    } else if Seeks(run, j) {
      SeekComesFrom(At(run, j), run[j]);
    }
  }

  /** The guards, still in terms of the state. */
  predicate Guards(run: seq<Input>, j: nat) {
    && j < |run| && run[j].Media? && At(run, j + 1).video != "" && At(run, j + 1).playing
    && run[j].now - At(run, j).lastSeek >= 1
  }

  lemma SeeksFor(run: seq<Input>, j: nat)
    requires j < |run| && run[j].Media? && At(run, j).youtube
    ensures Seeks(run, j) <==> Guards(run, j) && exists k: nat :: CoveredAt(run, k, j)
  {
    if Seeks(run, j) {
      var k := SoughtIsCovered(run, j);
    }
    if k: nat :| Guards(run, j) && CoveredAt(run, k, j) {
      CoveredIsSought(run, j, k);
    }
  }

  /** The state in which maybeSeek is called in step j. */
  lemma PreparedAt(run: seq<Input>, j: nat) returns (p: State)
    requires j < |run| && run[j].Media? && At(run, j).youtube
    ensures p.video == At(run, j + 1).video && p.playing == At(run, j + 1).playing
    ensures p.segments == LastDownload(run, j + 1) && p.lastSeek == At(run, j).lastSeek
    ensures (p.position, p.fetched) == SoughtFrom(At(run, j), run[j])
    ensures Seeks(run, j) <==>
            && p.video != "" && p.playing && run[j].now - p.lastSeek >= 1
            && Ceil(Position(p, run[j].now)) >= 0
            && exists g <- p.segments :: Covers(g, Ceil(Position(p, run[j].now)))
  {
    var s, i := At(run, j), run[j];
    p := Prepared(s, i.msg, i.now);
    SeekGuards(s, i, p);
    PreparedFields(s, i, p);
    SegmentsWereDownloaded(run, j + 1);
  }

  lemma SoughtIsCovered(run: seq<Input>, j: nat) returns (k: nat)
    requires Seeks(run, j) && run[j].Media? && At(run, j).youtube
    ensures Guards(run, j) && CoveredAt(run, k, j)
  {
    var p := PreparedAt(run, j);
    k := ReportFor(run, j);
    KnownPosition(At(run, j), run[j], run[k], p);
  }

  lemma CoveredIsSought(run: seq<Input>, j: nat, k: nat)
    requires Guards(run, j) && At(run, j).youtube && CoveredAt(run, k, j)
    ensures Seeks(run, j)
  {
    var p := PreparedAt(run, j);
    ReportGives(run, k, j);
    KnownPosition(At(run, j), run[j], run[k], p);
  }

  lemma SeekGuards(s: State, i: Input, p: State)
    requires i.Media? && s.youtube && p == Prepared(s, i.msg, i.now)
    ensures Next(s, i).seek.Some? <==>
            && p.video != "" && p.playing && i.now - p.lastSeek >= 1
            && Ceil(Position(p, i.now)) >= 0
            && exists g <- p.segments :: Covers(g, Ceil(Position(p, i.now)))
  {
    SeekExactly(p, i.now);
    ScheduleKeeps(SelectVideo(Observe(s, i.msg, i.now), i.msg), i.now);
  }

  lemma PreparedFields(s: State, i: Input, p: State)
    requires i.Media? && s.youtube && p == Prepared(s, i.msg, i.now)
    ensures var after := Next(s, i).state;
            && p.video == after.video && p.playing == after.playing && p.segments == after.segments
            && p.lastSeek == s.lastSeek && (p.position, p.fetched) == SoughtFrom(s, i)
  {
    ScheduleKeeps(SelectVideo(Observe(s, i.msg, i.now), i.msg), i.now);
    SeekKeeps(p, i.now);
  }

  lemma ReportFor(run: seq<Input>, j: nat) returns (k: nat)
    requires Seeks(run, j) && run[j].Media?
    ensures ReportUsed(run, k, j)
    ensures SoughtFrom(At(run, j), run[j]) == (run[k].msg.currentTime.value, run[k].now)
    ensures Extrapolated(run[k], run[j].now) >= 0
  {
    var s, i := At(run, j), run[j];
    SeekComesFrom(s, i);
    SeekCovers(s, i);
    SeekPositive(s, i);
    if Reports(i) {
      k := j;
    } else {
      k := PositionWasReported(run, j);
    }
  }

  lemma ReportGives(run: seq<Input>, k: nat, j: nat)
    requires ReportUsed(run, k, j) && run[j].Media?
    ensures SoughtFrom(At(run, j), run[j]) == (run[k].msg.currentTime.value, run[k].now)
  {
    if k < j {
      ReportIsHeld(run, k, j);
    }
  }

  lemma SeekPositive(s: State, i: Input)
    requires Next(s, i).seek.Some? && i.Media?
    ensures var (t, f) := SoughtFrom(s, i); Round((i.now - f) as real + t) >= 0
  {
    var p := Prepared(s, i.msg, i.now);
    SeekComesFrom(s, i);
    SeekExactly(p, i.now);
    PositionWhole(p, i.now);
    PreparedFields(s, i, p);
  }

  /** With the report r in hand the position is known. */
  lemma KnownPosition(s: State, i: Input, r: Input, p: State)
    requires i.Media? && Reports(r) && SoughtFrom(s, i) == (r.msg.currentTime.value, r.now)
    requires (p.position, p.fetched) == SoughtFrom(s, i)
    ensures p.playing ==> Ceil(Position(p, i.now)) == Extrapolated(r, i.now)
  {
    RoundRange((i.now - p.fetched) as real + p.position);
  }

  // ---- the program's own globals ----

  /** One turn of the loop over the globals. */
  method Handle(g: Globals, i: Input) returns (seek: Option<Seek>, poll: bool, asks: Option<string>)
    modifies g
    ensures Outcome(g.Value(), seek, poll, asks) == Next(old(g.Value()), i)
  {
    seek, poll, asks := None, false, None;
    match i
    case Media(msg, now) => seek := g.HandleMediaStatus(msg, now);
    case Receiver(status) => asks := g.HandleReceiverStatus(status);
    case Tick(now) => poll := g.Timeout(now);
    case Reconnect => g.Reconnect();
    case Quiet =>
  }

  /** What the first n steps did. */
  function OutcomesOf(run: seq<Input>, n: nat): seq<Outcome>
    requires n <= |run|
  {
    if n == 0 then [] else OutcomesOf(run, n - 1) + [Next(At(run, n - 1), run[n - 1])]
  }

  /** The program over a whole run passes through exactly the states of At, and seeks,
      polls and asks exactly as Next says. */
  method Execute(run: seq<Input>) returns (g: Globals, done: seq<Outcome>)
    ensures fresh(g) && g.Value() == At(run, |run|) && done == OutcomesOf(run, |run|)
  {
    g := new Globals();
    done := [];
    for n := 0 to |run|
      invariant fresh(g) && g.Value() == At(run, n) && done == OutcomesOf(run, n)
    {
      var seek, poll, asks := Handle(g, run[n]);
      done := done + [Outcome(g.Value(), seek, poll, asks)];
    }
  }
}
