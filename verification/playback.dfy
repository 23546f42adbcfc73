/** The light playback `runLights` (script.js:198-211), as the timeline it
    produces rather than as timers. For each interval it sets the `redLight`
    flag and the light label, then waits: a green interval shows Green for
    `duration - 1` seconds and Yellow for one more, a red interval shows Red
    for `duration` seconds. The label and the flag keep their last values
    after the final interval. */
module Playback {
  import opened Basics
  import opened Schedule

  datatype Phase = GreenPhase | YellowPhase | RedPhase

  /** A stretch of the timeline: from `start`, for `length` seconds, the label
      shows `phase` and the global `redLight` flag holds `redLight`. */
  datatype Segment = Segment(phase: Phase, start: int, length: int, redLight: bool)

  /** The seconds `setTimeout` waits for a delay of `seconds`: a negative
      delay fires at once. */
  function Wait(seconds: int): nat
  {
    if seconds < 0 then 0 else seconds
  }

  /** A duration that gives every phase its full time: a green interval lasts
      at least one second (its yellow second), a red one is not negative. */
  predicate FullLength(iv: Interval)
  {
    if iv.color == Green then iv.duration >= 1 else iv.duration >= 0
  }

  /** Every interval of the schedule has a full-length duration. */
  predicate WellFormed(s: seq<Interval>)
  {
    forall k :: 0 <= k < |s| ==> FullLength(s[k])
  }

  /** The seconds `runLights` spends on one interval. */
  function SlotLength(iv: Interval): (n: nat)
    ensures FullLength(iv) ==> n == iv.duration
  {
    if iv.color == Red then Wait(iv.duration) else Wait(iv.duration - 1) + 1
  }

  /** One round of the loop in `runLights`, started at time `t`. */
  function PlayInterval(iv: Interval, t: int): (r: seq<Segment>)
  {
    var redLight := iv.color == Red;
    if !redLight then
      [Segment(GreenPhase, t, Wait(iv.duration - 1), false),
       Segment(YellowPhase, t + Wait(iv.duration - 1), 1, false)]
    else
      [Segment(RedPhase, t, Wait(iv.duration), true)]
  }

  /** Where a timeline ends, read off its last segment (`t` when empty). */
  function EndTime(tl: seq<Segment>, t: int): int
  {
    if |tl| == 0 then t else tl[|tl| - 1].start + tl[|tl| - 1].length
  }

  /** The timeline of `runLights(s)` started at time `t`. */
  function Timeline(s: seq<Interval>, t: int): (r: seq<Segment>)
    ensures forall k :: 0 <= k < |r| ==> (r[k].redLight <==> r[k].phase == RedPhase)
    ensures forall k :: 0 <= k < |r| ==> r[k].start >= t && r[k].length >= 0
    ensures |r| > 0 ==> r[0].start == t
    ensures forall k :: 0 <= k < |r| - 1 ==> r[k + 1].start == r[k].start + r[k].length
    ensures forall k :: 0 <= k < |r| && r[k].phase == YellowPhase ==>
      0 < k && r[k].length == 1 && r[k - 1].phase == GreenPhase
    ensures |r| == 0 <==> |s| == 0
  {
    if |s| == 0 then []
    else
      var p := PlayInterval(s[0], t);
      var rest := Timeline(s[1..], t + SlotLength(s[0]));
      assert EndTime(p, t) == t + SlotLength(s[0]);
      p + rest
  }

  /** The timeline ends when the schedule's durations are used up. */
  lemma {:induction false} TimelineEnd(s: seq<Interval>, t: int)
    requires WellFormed(s)
    ensures EndTime(Timeline(s, t), t) == t + TotalDuration(s)
  {
    if |s| > 0 {
      TimelineEnd(s[1..], t + SlotLength(s[0]));
      var p := PlayInterval(s[0], t);
      var rest := Timeline(s[1..], t + SlotLength(s[0]));
      assert Timeline(s, t) == p + rest;
    }
  }

  /** The index of the segment most recently started at time `t`: the last
      one whose start is not after `t`, or -1 before the first. */
  function LastStarted(tl: seq<Segment>, t: int): (k: int)
    ensures -1 <= k < |tl|
    ensures k >= 0 ==> tl[k].start <= t
    ensures forall j :: k < j < |tl| ==> tl[j].start > t
  {
    if |tl| == 0 then -1
    else if tl[|tl| - 1].start <= t then |tl| - 1
    else LastStarted(tl[..|tl| - 1], t)
  }

  /** The light label at time `t` (`None` while it is still blank). */
  function PhaseAt(tl: seq<Segment>, t: int): Option<Phase>
  {
    var k := LastStarted(tl, t);
    if k < 0 then None else Some(tl[k].phase)
  }

  /** The `redLight` flag at time `t`; `initGame` has cleared it before the
      first interval. */
  function RedLightAt(tl: seq<Segment>, t: int): bool
  {
    var k := LastStarted(tl, t);
    k >= 0 && tl[k].redLight
  }

  /** Reference reading of a schedule, independent of timers and segments:
      the phase shown `u` seconds after playback begins. Inside an interval it
      is Red for a red one, and Green then Yellow in its last second for a
      green one; after the last interval its final phase stays on display. */
  function ScheduledPhase(s: seq<Interval>, u: int): Option<Phase>
  {
    if |s| == 0 || u < 0 then None
    else if u < s[0].duration then Some(SlotPhase(s[0], u))
    else
      match ScheduledPhase(s[1..], u - s[0].duration)
      case Some(p) => Some(p)
      case None => Some(FinalPhase(s[0]))
  }

  /** The phase shown `v` seconds into an interval. */
  function SlotPhase(iv: Interval, v: int): Phase
  {
    if iv.color == Red then RedPhase
    else if v < iv.duration - 1 then GreenPhase
    else YellowPhase
  }

  /** The phase an interval ends on. */
  function FinalPhase(iv: Interval): Phase
  {
    if iv.color == Red then RedPhase else YellowPhase
  }

  /** The most recent start in a concatenation is in the second part, when it
      has started there, and in the first part otherwise. */
  lemma LastStartedConcat(a: seq<Segment>, b: seq<Segment>, t: int)
    ensures LastStarted(a + b, t) ==
      (if LastStarted(b, t) >= 0 then |a| + LastStarted(b, t) else LastStarted(a, t))
  {
    assert forall j :: 0 <= j < |a| ==> (a + b)[j] == a[j];
    assert forall j :: 0 <= j < |b| ==> (a + b)[|a| + j] == b[j];
  }

  /** The label after a concatenation of timelines: the second part's once
      it has started, the first part's before. */
  lemma PhaseAtConcat(a: seq<Segment>, b: seq<Segment>, t: int)
    ensures PhaseAt(a + b, t) == (if PhaseAt(b, t).Some? then PhaseAt(b, t) else PhaseAt(a, t))
  {
    LastStartedConcat(a, b, t);
    var kb := LastStarted(b, t);
    var ka := LastStarted(a, t);
    if kb >= 0 {
      assert (a + b)[|a| + kb] == b[kb];
    } else if ka >= 0 {
      assert (a + b)[ka] == a[ka];
    }
  }

  /** The label during and after one round of `runLights`: nothing before it
      starts, the interval's phase while it runs, its final phase after. */
  lemma PhaseOfOneInterval(iv: Interval, t0: int, t: int)
    requires FullLength(iv)
    ensures PhaseAt(PlayInterval(iv, t0), t) ==
      if t < t0 then None
      else if t - t0 < iv.duration then Some(SlotPhase(iv, t - t0))
      else Some(FinalPhase(iv))
  {
    var p := PlayInterval(iv, t0);
    if iv.color == Green {
      assert p[..1] == [p[0]];
      assert p[..1][..0] == [];
    } else {
      assert p[..0] == [];
    }
  }

  /** The label `runLights` shows is the reference reading of the schedule,
      at every moment before, during and after playback. */
  lemma {:induction false} PlaybackShowsSchedule(s: seq<Interval>, t0: int, t: int)
    requires WellFormed(s)
    ensures PhaseAt(Timeline(s, t0), t) == ScheduledPhase(s, t - t0)
  {
    if |s| > 0 {
      var t1 := t0 + SlotLength(s[0]);
      var p := PlayInterval(s[0], t0);
      var rest := Timeline(s[1..], t1);
      assert Timeline(s, t0) == p + rest;
      assert FullLength(s[0]);
      assert WellFormed(s[1..]) by {
        assert forall k :: 0 <= k < |s[1..]| ==> s[1..][k] == s[k + 1];
      }
      PlaybackShowsSchedule(s[1..], t1, t);
      PhaseAtConcat(p, rest, t);
      PhaseOfOneInterval(s[0], t0, t);
    }
  }

  /** The `redLight` flag is up exactly while the reference reading of the
      schedule is Red, including after the last interval. */
  lemma RedLightExactlyDuringRed(s: seq<Interval>, t0: int, t: int)
    requires WellFormed(s)
    ensures RedLightAt(Timeline(s, t0), t) <==> ScheduledPhase(s, t - t0) == Some(RedPhase)
  {
    PlaybackShowsSchedule(s, t0, t);
  }

  /** The seconds before interval `i` begins. */
  function IntervalStart(s: seq<Interval>, i: nat): int
    requires i <= |s|
  {
    TotalDuration(s[..i])
  }

  /** Inside interval `i`, `v` seconds in: a green interval shows Green for
      its first `duration - 1` seconds and Yellow in its last; a red interval
      shows Red throughout and never Yellow. */
  lemma {:induction false} PhaseWithinInterval(s: seq<Interval>, i: nat, v: int)
    requires WellFormed(s)
    requires i < |s| && 0 <= v < s[i].duration
    ensures ScheduledPhase(s, IntervalStart(s, i) + v) ==
      Some(if s[i].color == Red then RedPhase
           else if v < s[i].duration - 1 then GreenPhase
           else YellowPhase)
  {
    if i > 0 {
      assert s[..i][1..] == s[1..][..i - 1];
      assert IntervalStart(s, i) == s[0].duration + IntervalStart(s[1..], i - 1);
      StartsAreNonNegative(s[1..], i - 1);
      PhaseWithinInterval(s[1..], i - 1, v);
    }
  }

  /** Interval starts of a well-formed schedule are not negative. */
  lemma {:induction false} StartsAreNonNegative(s: seq<Interval>, i: nat)
    requires WellFormed(s) && i <= |s|
    ensures IntervalStart(s, i) >= 0
  {
    if i > 0 {
      assert s[..i][1..] == s[1..][..i - 1];
      StartsAreNonNegative(s[1..], i - 1);
    }
  }

  /** Once a non-empty schedule is used up, its last interval's final phase
      stays on display. */
  lemma {:induction false} AfterTheEnd(s: seq<Interval>, u: int)
    requires WellFormed(s) && |s| > 0
    requires u >= TotalDuration(s)
    ensures ScheduledPhase(s, u) == Some(FinalPhase(s[|s| - 1]))
  {
    if |s| > 1 {
      assert s[1..][|s[1..]| - 1] == s[|s| - 1];
      AfterTheEnd(s[1..], u - s[0].duration);
    }
  }

  /** Every schedule the generator returns ends on a red interval, so when
      playback runs out the light stays Red and the flag stays up. */
  lemma GeneratedScheduleEndsRed(c: Config, draws: seq<nat>, u: int)
    requires ValidConfig(c) && c.minGreen >= 1 && c.minRed >= 0
    ensures var r := TimeIntervals(c, draws);
      r.Some? && |r.value| > 0 && u >= TotalDuration(r.value) ==> ScheduledPhase(r.value, u) == Some(RedPhase)
  {
    var r := TimeIntervals(c, draws);
    if r.Some? && |r.value| > 0 && u >= TotalDuration(r.value) {
      assert WellFormed(r.value);
      AfterTheEnd(r.value, u);
    }
  }

  /** Replaying green 3 then red 2: Green at 0, Yellow at 2, Red at 3, done at 5. */
  lemma GreenThreeRedTwo()
    ensures Timeline([Interval(Green, 3), Interval(Red, 2)], 0) ==
      [Segment(GreenPhase, 0, 2, false), Segment(YellowPhase, 2, 1, false), Segment(RedPhase, 3, 2, true)]
    ensures EndTime(Timeline([Interval(Green, 3), Interval(Red, 2)], 0), 0) == 5
  {
    var s := [Interval(Green, 3), Interval(Red, 2)];
    assert s[1..] == [Interval(Red, 2)];
    assert s[1..][1..] == [];
  }
}
