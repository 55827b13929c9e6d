/** Positions, rounding and the two searches over the skip segments. */
module Segments {
  import opened Varint

  datatype Segment = Segment(begin: real, end: real)

  /** std::round: half away from zero. */
  function Round(x: real): int {
    if x >= 0.0 then (x + 0.5).Floor else 0 - (0.5 - x).Floor
  }

  /** std::ceil, and the conversion of a double to int. */
  function Ceil(x: real): int {
    0 - (0.0 - x).Floor
  }

  function Trunc(x: real): int {
    if x >= 0.0 then x.Floor else Ceil(x)
  }

  // ---- the next segment ----

  predicate Live(s: Segment, current: real) {
    s.end >= current
  }

  function EarliestLive(segments: seq<Segment>, current: real): Option<real> {
    if segments == [] then None
    else
      var s, rest := segments[0], EarliestLive(segments[1..], current);
      if !Live(s, current) then rest
      else if rest.None? || s.begin < rest.value then Some(s.begin) else rest
  }

  /** secondsUntilNextSegment at position current; -1 when there is none. */
  function SecondsUntilNext(segments: seq<Segment>, current: real): real {
    if current < 0.0 then -1.0
    else match EarliestLive(segments, current)
         case None => -1.0
         case Some(b) => b - current
  }

  /** The search finds the minimum begin over exactly the live segments. */
  lemma {:induction false} EarliestIsMinimum(segments: seq<Segment>, current: real)
    ensures EarliestLive(segments, current) == None <==> forall s <- segments :: !Live(s, current)
    ensures forall b :: EarliestLive(segments, current) == Some(b) <==>
            && (exists s <- segments :: Live(s, current) && s.begin == b)
            && (forall s <- segments :: Live(s, current) ==> b <= s.begin)
  {
    if segments != [] {
      EarliestIsMinimum(segments[1..], current);
      assert forall s :: s in segments <==> s == segments[0] || s in segments[1..];
    }
  }

  /** Only which segments there are matters, not their order. */
  lemma EarliestAnyOrder(a: seq<Segment>, b: seq<Segment>, current: real)
    requires forall s :: s in a <==> s in b
    ensures SecondsUntilNext(a, current) == SecondsUntilNext(b, current)
  {
    EarliestIsMinimum(a, current);
    EarliestIsMinimum(b, current);
  }

  /** The delta is non-negative exactly when a live segment exists and none of the
      live ones has begun. */
  lemma NextExactly(segments: seq<Segment>, current: real)
    ensures SecondsUntilNext(segments, current) >= 0.0 <==>
            && current >= 0.0
            && (exists s <- segments :: s.end >= current)
            && (forall s <- segments :: s.end >= current ==> current <= s.begin)
  {
    EarliestIsMinimum(segments, current);
    var e := EarliestLive(segments, current);
    if e.Some? {
      assert forall s <- segments :: Live(s, current) ==> e.value <= s.begin;
    }
    assert forall s <- segments :: Live(s, current) <==> s.end >= current;
  }

  // ---- the current segment ----

  /** The source's test, at the whole second c. */
  predicate Covers(s: Segment, c: int) {
    Trunc(s.end) > c && s.begin < c as real
  }

  /** The segment has begun before second c and lasts at least a second more. */
  lemma CoversMeans(s: Segment, c: int)
    requires c >= 0
    ensures Covers(s, c) <==> s.begin < c as real && c as real + 1.0 <= s.end
  {
  }

  function FirstCovering(segments: seq<Segment>, c: int): Option<Segment> {
    if segments == [] then None
    else if Covers(segments[0], c) then Some(segments[0])
    else FirstCovering(segments[1..], c)
  }

  /** currentSegmentEnd at position current; -1 when there is none. */
  function CurrentEnd(segments: seq<Segment>, current: real): real {
    var c := Ceil(current);
    if c < 0 then -1.0
    else match FirstCovering(segments, c)
         case None => -1.0
         case Some(s) => s.end
  }

  lemma {:induction false} FirstCoveringIs(segments: seq<Segment>, c: int)
    ensures match FirstCovering(segments, c)
            case None => forall s <- segments :: !Covers(s, c)
            case Some(s) => s in segments && Covers(s, c)
  {
    if segments != [] {
      FirstCoveringIs(segments[1..], c);
      assert forall s :: s in segments <==> s == segments[0] || s in segments[1..];
    }
  }

  /** Either no segment covers the whole second, or the result is the end of one
      that does, at least a second ahead. */
  lemma CurrentEndIs(segments: seq<Segment>, current: real)
    ensures CurrentEnd(segments, current) < 0.0 <==>
            Ceil(current) < 0 || forall s <- segments :: !Covers(s, Ceil(current))
    ensures CurrentEnd(segments, current) >= 0.0 ==>
            && CurrentEnd(segments, current) >= current + 1.0
            && exists s <- segments :: Covers(s, Ceil(current)) && s.end == CurrentEnd(segments, current)
  {
    FirstCoveringIs(segments, Ceil(current));
  }

  // ---- rounding ----

  lemma FloorShift(x: real, n: int)
    ensures (x + n as real).Floor == x.Floor + n
  {
  }

  /** Rounding commutes with adding whole seconds, except for a negative half-integer
      that the shift brings to zero or above. */
  lemma RoundShift(x: real, n: nat)
    ensures Round(x + n as real) == Round(x) + n <==>
            !(x < 0.0 && x + n as real >= 0.0 && (x + 0.5).Floor as real == x + 0.5)
  {
    FloorShift(x + 0.5, n);
    FloorShift(0.5 - x - n as real, n);
    assert 0.5 - x - n as real + n as real == 0.5 - x;
    var f := (x + 0.5).Floor;
    assert (0.5 - x).Floor == if f as real == x + 0.5 then 1 - f else 0 - f;
  }

  /** Rounding goes to the nearest whole number, halves away from zero; the other two
      go up and towards zero. */
  lemma RoundingMeans(x: real)
    ensures x >= 0.0 ==> x - 0.5 < Round(x) as real <= x + 0.5
    ensures x < 0.0 ==> x - 0.5 <= Round(x) as real < x + 0.5
    ensures x <= Ceil(x) as real < x + 1.0
    ensures x >= 0.0 ==> x - 1.0 < Trunc(x) as real <= x
    ensures x < 0.0 ==> x <= Trunc(x) as real < x + 1.0
  {
  }

  lemma RoundRange(x: real)
    ensures Round(x) >= 0 <==> x > -0.5
    ensures x >= 0.0 ==> Trunc(x) <= Round(x) <= Ceil(x)
    ensures Ceil(Round(x) as real) == Round(x)
    ensures x <= Ceil(x) as real < x + 1.0
  {
  }
}
