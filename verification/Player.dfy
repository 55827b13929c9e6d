/** The skip state machine: the program's global playback state and the steps that
    change it.  Each step reads the clock once. */
module Player {
  import opened Varint
  import opened Segments

  /** Seconds since the epoch, after its start. */
  type Clock = n: int | n > 0 witness 1

  /** A position as the extracted digits give it. */
  type Time = r: real | r >= 0.0

  datatype State = State(
    segments: seq<Segment>,
    nextStart: real,
    video: string,
    position: real,
    fetched: int,
    playing: bool,
    lastSeek: int,
    youtube: bool,
    mediaSession: string,
    dest: string)

  /** The initial values of the globals. */
  const INITIAL := State([], -1.0, "", -1.0, -1, false, 0, false, "", "")

  /** A MEDIA_STATUS message: the extracted fields, empty or None where the message
      has none, and what downloading the video's segments would return. */
  datatype MediaStatus = MediaStatus(
    currentTime: Option<Time>,
    playerState: string,
    mediaSession: string,
    videoId: string,
    downloaded: seq<Segment>)

  /** A RECEIVER_STATUS message: the extracted fields, empty where it has none, and
      whether it mentions the media namespace. */
  datatype ReceiverStatus = ReceiverStatus(displayName: string, sessionId: string, media: bool)

  /** A call of cc::seek; it is sent, to dest, only if there is a media session. */
  datatype Seek = Seek(target: real, sent: bool, dest: string)

  /** The state after a step, the seek it attempted, whether it polled, and the
      destination that it connected to and asked for the media status, if any. */
  datatype Outcome = Outcome(state: State, seek: Option<Seek>, poll: bool, asks: Option<string>)

  function Silent(s: State): Outcome {
    Outcome(s, None, false, None)
  }

  /** currentPosition. */
  function Position(s: State, now: int): real {
    if !s.playing then s.position
    else if s.position < 0.0 then -1.0
    else Round((now - s.fetched) as real + s.position) as real
  }

  /** maybeSeek. */
  function SeekStep(s: State, now: int): Outcome {
    var e := CurrentEnd(s.segments, Position(s, now));
    if s.video == "" || s.segments == [] || e < 0.0 || !s.playing || now - s.lastSeek < 1
    then Silent(s)
    else Outcome(s.(lastSeek := now, position := -1.0, nextStart := -1.0, fetched := -1),
                 Some(Seek(e, s.mediaSession != "", s.dest)), false, None)
  }

  /** The fields that every media status updates. */
  function Observe(s: State, msg: MediaStatus, now: int): State {
    var s1 := if msg.currentTime.Some? then s.(position := msg.currentTime.value, fetched := now) else s;
    var s2 := if msg.playerState != "" then s1.(playing := msg.playerState == "PLAYING") else s1;
    if msg.mediaSession != "" then s2.(mediaSession := msg.mediaSession) else s2
  }

  /** Whether the message names a video other than the current one. */
  predicate NewVideo(s: State, msg: MediaStatus) {
    msg.videoId != "" && msg.videoId != s.video
  }

  function SelectVideo(s: State, msg: MediaStatus): State {
    if NewVideo(s, msg) then s.(segments := msg.downloaded, video := msg.videoId, nextStart := -1.0) else s
  }

  function Schedule(s: State, now: int): State {
    var delta := SecondsUntilNext(s.segments, Position(s, now));
    if delta >= 0.0 then s.(nextStart := now as real + delta) else s
  }

  /** handleMessage on a MEDIA_STATUS. */
  function MediaStep(s: State, msg: MediaStatus, now: int): Outcome {
    var seen := Observe(s, msg, now);
    if !s.youtube then Silent(seen)
    else
      var selected := SelectVideo(seen, msg);
      if selected.segments == [] then Silent(selected)
      else SeekStep(Schedule(selected, now), now)
  }

  /** handleMessage on a RECEIVER_STATUS. */
  function ReceiverStep(s: State, msg: ReceiverStatus): Outcome {
    var s1 := if msg.sessionId != "" then s.(dest := msg.sessionId) else s;
    var s2 := if msg.displayName != "" then s1.(youtube := msg.displayName == "YouTube") else s1;
    Outcome(s2, None, false, if msg.media then Some(s2.dest) else None)
  }

  /** The timeout branch of loop: the poll asks for the media status. */
  function TickStep(s: State, now: int): Outcome {
    if s.nextStart > 0.0 && s.nextStart <= now as real
    then Outcome(s.(nextStart := -1.0), None, true, None)
    else Silent(s)
  }

  /** The reset in main before each connection. */
  function ReconnectStep(s: State): State {
    s.(position := -1.0, nextStart := -1.0, fetched := -1, video := "", mediaSession := "", dest := "")
  }

  /** The globals and the functions of loop.h that update them. */
  class Globals {
    var currentSegments: seq<Segment>
    var nextSegmentStart: real
    var currentVideo: string
    var currentPosition: real
    var lastPositionFetched: int
    var currentlyPlaying: bool
    var lastSeek: int
    var youtube: bool
    var mediaSession: string
    var dest: string

    constructor ()
      ensures Value() == INITIAL
    {
      currentSegments, nextSegmentStart, currentVideo := [], -1.0, "";
      currentPosition, lastPositionFetched, currentlyPlaying := -1.0, -1, false;
      lastSeek, youtube, mediaSession, dest := 0, false, "", "";
    }

    function Value(): State
      reads this
    {
      State(currentSegments, nextSegmentStart, currentVideo, currentPosition, lastPositionFetched,
            currentlyPlaying, lastSeek, youtube, mediaSession, dest)
    }

    method CurrentPosition(now: Clock) returns (p: real)
      ensures p == Position(Value(), now)
    {
      if !currentlyPlaying {
        return currentPosition;
      }
      if currentPosition < 0.0 {
        return -1.0;
      }
      var timeDelta := (now - lastPositionFetched) as real;
      return Round(timeDelta + currentPosition) as real;
    }

    method SecondsUntilNextSegment(now: Clock) returns (delta: real)
      ensures delta == SecondsUntilNext(currentSegments, Position(Value(), now))
    {
      var current := CurrentPosition(now);
      if current < 0.0 {
        return -1.0;
      }
      if currentSegments == [] {
        return -1.0;
      }
      var lowestBegin, found := 0.0, false;
      var i := 0;
      while i < |currentSegments|
        invariant 0 <= i <= |currentSegments|
        invariant found <==> exists s <- currentSegments[..i] :: Live(s, current)
        invariant found ==> exists s <- currentSegments[..i] :: Live(s, current) && s.begin == lowestBegin
        invariant found ==> forall s <- currentSegments[..i] :: Live(s, current) ==> lowestBegin <= s.begin
      {
        var segment := currentSegments[i];
        assert currentSegments[..i + 1] == currentSegments[..i] + [segment];
        assert segment in currentSegments[..i + 1];
        i := i + 1;
        if segment.end < current {
          continue;
        }
        if !found || segment.begin < lowestBegin {
          lowestBegin := segment.begin;
          found := true;
        }
      }
      assert currentSegments[..i] == currentSegments;
      EarliestIsMinimum(currentSegments, current);
      if !found {
        return -1.0;
      }
      return lowestBegin - current;
    }

    method CurrentSegmentEnd(now: Clock) returns (end: real)
      ensures end == CurrentEnd(currentSegments, Position(Value(), now))
    {
      var position := CurrentPosition(now);
      var current := Ceil(position);
      if current < 0 {
        return -1.0;
      }
      if currentSegments == [] {
        return -1.0;
      }
      var i := 0;
      assert currentSegments[0..] == currentSegments;
      while i < |currentSegments|
        invariant 0 <= i <= |currentSegments|
        invariant FirstCovering(currentSegments, current) == FirstCovering(currentSegments[i..], current)
      {
        var segment := currentSegments[i];
        assert currentSegments[i..][1..] == currentSegments[i + 1..];
        i := i + 1;
        if Trunc(segment.end) <= current {
          continue;
        }
        if segment.begin < current as real {
          return segment.end;
        }
      }
      return -1.0;
    }

    method MaybeSeek(now: Clock) returns (seek: Option<Seek>)
      modifies this
      ensures var o := SeekStep(old(Value()), now); Value() == o.state && seek == o.seek
    {
      if currentVideo == "" {
        return None;
      }
      if currentSegments == [] {
        return None;
      }
      var segmentEnd := CurrentSegmentEnd(now);
      if segmentEnd < 0.0 {
        return None;
      }
      if !currentlyPlaying {
        return None;
      }
      if now - lastSeek < 1 {
        return None;
      }
      lastSeek := now;
      currentPosition := -1.0;
      nextSegmentStart := -1.0;
      lastPositionFetched := -1;
      return Some(Seek(segmentEnd, mediaSession != "", dest));
    }

    /** The first part of handleMessage on a MEDIA_STATUS: position, state, session. */
    method RecordStatus(msg: MediaStatus, now: Clock)
      modifies this
      ensures Value() == Observe(old(Value()), msg, now)
    {
      if msg.currentTime.Some? {
        currentPosition := msg.currentTime.value;
        lastPositionFetched := now;
      }
      if msg.playerState != "" {
        currentlyPlaying := msg.playerState == "PLAYING";
      }
      if msg.mediaSession != "" {
        mediaSession := msg.mediaSession;
      }
    }

    /** The second part: a new video replaces the segments. */
    method ChooseVideo(msg: MediaStatus)
      modifies this
      ensures Value() == SelectVideo(old(Value()), msg)
    {
      if msg.videoId != "" && msg.videoId != currentVideo {
        currentSegments := msg.downloaded;
        currentVideo := msg.videoId;
        nextSegmentStart := -1.0;
      }
    }

    /** The third part: when to poll next. */
    method SchedulePoll(now: Clock)
      modifies this
      ensures Value() == Schedule(old(Value()), now)
    {
      var delta := SecondsUntilNextSegment(now);
      if delta >= 0.0 {
        nextSegmentStart := now as real + delta;
      }
    }

    /** handleMessage on a MEDIA_STATUS. */
    method HandleMediaStatus(msg: MediaStatus, now: Clock) returns (seek: Option<Seek>)
      modifies this
      ensures var o := MediaStep(old(Value()), msg, now); Value() == o.state && seek == o.seek
    {
      RecordStatus(msg, now);
      if !youtube {
        return None;
      }
      ChooseVideo(msg);
      seek := None;
      if currentSegments != [] {
        SchedulePoll(now);
        seek := MaybeSeek(now);
      }
    }

    /** handleMessage on a RECEIVER_STATUS. */
    method HandleReceiverStatus(msg: ReceiverStatus) returns (asks: Option<string>)
      modifies this
      ensures var o := ReceiverStep(old(Value()), msg); Value() == o.state && asks == o.asks
    {
      if msg.sessionId != "" {
        dest := msg.sessionId;
      }
      if msg.displayName == "YouTube" {
        youtube := true;
      } else if msg.displayName != "" {
        youtube := false;
      }
      return if msg.media then Some(dest) else None;
    }

    method Timeout(now: Clock) returns (poll: bool)
      modifies this
      ensures var o := TickStep(old(Value()), now); Value() == o.state && poll == o.poll
    {
      poll := false;
      if nextSegmentStart > 0.0 && nextSegmentStart <= now as real {
        nextSegmentStart := -1.0;
        poll := true;
      }
    }

    method Reconnect()
      modifies this
      ensures Value() == ReconnectStep(old(Value()))
    {
      currentPosition := -1.0;
      nextSegmentStart := -1.0;
      lastPositionFetched := -1;
      currentVideo := "";
      mediaSession := "";
      dest := "";
    }
  }

  // ---- one step ----

  /** A seek is attempted exactly when all of maybeSeek's guards let it through, and
      its target is the end of a segment that covers the current second. */
  lemma SeekExactly(s: State, now: int)
    ensures SeekStep(s, now).seek.Some? <==>
            && s.video != "" && s.playing && now - s.lastSeek >= 1
            && Ceil(Position(s, now)) >= 0
            && exists g <- s.segments :: Covers(g, Ceil(Position(s, now)))
    ensures SeekStep(s, now).seek.Some? ==>
            exists g <- s.segments ::
              Covers(g, Ceil(Position(s, now))) && g.end == SeekStep(s, now).seek.value.target
  {
    CurrentEndIs(s.segments, Position(s, now));
  }

  /** While playing the position is a whole second. */
  lemma PlayingWhole(s: State, now: int)
    requires s.playing
    ensures Ceil(Position(s, now)) as real == Position(s, now)
  {
    if s.position >= 0.0 {
      RoundRange((now - s.fetched) as real + s.position);
    }
  }

  lemma CoversIsLive(g: Segment, c: int)
    requires Covers(g, c) && c >= 0
    ensures Live(g, c as real)
  {
  }

  /** A step that finds a segment ahead never also seeks. */
  lemma AheadNeverSeeks(s: State, now: int)
    requires SecondsUntilNext(s.segments, Position(s, now)) >= 0.0
    ensures SeekStep(s, now).seek.None?
  {
    SeekExactly(s, now);
    NextExactly(s.segments, Position(s, now));
    if s.playing {
      var c := Ceil(Position(s, now));
      PlayingWhole(s, now);
      forall g | g in s.segments && c >= 0
        ensures !Covers(g, c)
      {
        if Covers(g, c) {
          CoversIsLive(g, c);
        }
      }
    }
  }

  /** Position and fetch time are invalid together. */
  predicate PositionValid(s: State) {
    s.position < 0.0 <==> s.fetched == -1
  }

  /** Time moves a known position on by whole seconds. */
  lemma PositionMoves(s: State, now: int, later: int)
    requires s.playing && s.position >= 0.0 && Position(s, now) >= 0.0 && now <= later
    ensures Position(s, later) == Position(s, now) + (later - now) as real
  {
    var x := (now - s.fetched) as real + s.position;
    RoundRange(x);
    RoundShift(x, later - now);
    assert x + (later - now) as real == (later - s.fetched) as real + s.position;
  }
}
