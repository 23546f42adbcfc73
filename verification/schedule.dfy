/** The schedule generator `timeIntervals` (script.js:130-165): green
    durations are drawn until their total covers the distance with a safety
    margin, the red splitter is asked for as many red durations, and the two
    lists are interleaved green first. */
module Schedule {
  import opened Basics
  import opened Random
  import opened RedSplit

  /** Seconds of green time added on top of the time the crossing needs. */
  const SafetyMargin: int := 7

  datatype Color = Green | Red

  /** One entry of the schedule: `{ type, duration }`, duration in seconds. */
  datatype Interval = Interval(color: Color, duration: int)

  /** The arguments of `timeIntervals`; the source's defaults for the four
      bounds are 2, 5, 2 and 5. */
  datatype Config = Config(totalTime: int, distance: int, speed: int,
                           minGreen: int, maxGreen: int, minRed: int, maxRed: int)

  /** The call with the source's default bounds. */
  function WithDefaultBounds(totalTime: int, distance: int, speed: int): Config
  {
    Config(totalTime, distance, speed, 2, 5, 2, 5)
  }

  /** What the generator asks of its caller: a positive speed and bounds
      with `min <= max`. */
  predicate ValidConfig(c: Config)
  {
    c.speed > 0 && c.minGreen <= c.maxGreen && c.minRed <= c.maxRed
  }

  /** `Math.ceil(a / b)` for integers and a positive divisor. */
  function CeilDiv(a: int, b: int): (q: int)
    requires b > 0
    ensures (q - 1) * b < a <= q * b
  {
    -((-a) / b)
  }

  /** `greenTimeNeeded`: the seconds the crossing takes, plus the margin. */
  function GreenNeeded(c: Config): int
    requires c.speed > 0
  {
    CeilDiv(c.distance, c.speed) + SafetyMargin
  }

  /** One green duration (script.js:146): `minGreen` plus a draw below
      `maxGreen - minGreen + 1`. */
  function GreenDraw(minGreen: int, maxGreen: int, d: nat): (g: int)
    requires minGreen <= maxGreen
    ensures minGreen <= g <= maxGreen
  {
    minGreen + Below(d, maxGreen - minGreen + 1)
  }

  /** Every duration of the range is drawn by some draw, so the greens the
      model can produce are exactly those the source can produce. */
  lemma GreenDrawReachesAll(minGreen: int, maxGreen: int, g: int)
    requires minGreen <= g <= maxGreen
    ensures exists d: nat :: GreenDraw(minGreen, maxGreen, d) == g
  {
    var d: nat := g - minGreen;
    BelowReachesAll(d, maxGreen - minGreen + 1);
    assert GreenDraw(minGreen, maxGreen, d) == g;
  }

  /** The outcome of the green loop: the drawn durations, their running
      total, and the draws left for the red splitter. */
  datatype Greens = Greens(lights: seq<int>, total: int, rest: seq<nat>)

  /** The loop `while (greenTimeAccumulated < greenTimeNeeded)`, one draw per
      round, from the durations `lights` drawn so far and their `total`. */
  function GreenLoop(needed: int, minGreen: int, maxGreen: int,
                     lights: seq<int>, total: int, draws: seq<nat>): Option<Greens>
    requires minGreen <= maxGreen
    decreases |draws|
  {
    if total >= needed then Some(Greens(lights, total, draws))
    else if |draws| == 0 then None
    else
      var g := GreenDraw(minGreen, maxGreen, draws[0]);
      GreenLoop(needed, minGreen, maxGreen, lights + [g], total + g, draws[1..])
  }

  /** The green loop keeps the running total equal to the sum of the
      durations, only appends to them, and uses one draw per duration. */
  lemma {:induction false} GreenLoopShape(needed: int, minGreen: int, maxGreen: int,
                                          lights: seq<int>, total: int, draws: seq<nat>)
    requires minGreen <= maxGreen
    requires total == Sum(lights)
    ensures var r := GreenLoop(needed, minGreen, maxGreen, lights, total, draws);
      r.Some? ==>
        && r.value.total == Sum(r.value.lights) && r.value.total >= needed
        && |lights| <= |r.value.lights| && r.value.lights[..|lights|] == lights
        && |r.value.lights| - |lights| <= |draws|
        && r.value.rest == draws[|r.value.lights| - |lights|..]
    decreases |draws|
  {
    if total < needed && |draws| > 0 {
      var g := GreenDraw(minGreen, maxGreen, draws[0]);
      SumSnoc(lights, g);
      GreenLoopShape(needed, minGreen, maxGreen, lights + [g], total + g, draws[1..]);
      var r := GreenLoop(needed, minGreen, maxGreen, lights, total, draws);
      if r.Some? {
        assert r.value.lights[..|lights|] == (r.value.lights[..|lights| + 1])[..|lights|];
      }
    }
  }

  /** The durations the green loop appends are its draws scaled into
      `[minGreen, maxGreen]`, in order. */
  lemma {:induction false} GreenLoopDraws(needed: int, minGreen: int, maxGreen: int,
                                          lights: seq<int>, total: int, draws: seq<nat>)
    requires minGreen <= maxGreen
    requires total == Sum(lights)
    ensures var r := GreenLoop(needed, minGreen, maxGreen, lights, total, draws);
      r.Some? ==> forall k :: |lights| <= k < |r.value.lights| && k - |lights| < |draws| ==>
        r.value.lights[k] == GreenDraw(minGreen, maxGreen, draws[k - |lights|])
    decreases |draws|
  {
    if total < needed && |draws| > 0 {
      var g := GreenDraw(minGreen, maxGreen, draws[0]);
      SumSnoc(lights, g);
      GreenLoopShape(needed, minGreen, maxGreen, lights + [g], total + g, draws[1..]);
      GreenLoopDraws(needed, minGreen, maxGreen, lights + [g], total + g, draws[1..]);
    }
  }

  /** The green loop stops at the first total that reaches `needed`: every
      total it passed through before the last was below `needed`. */
  lemma {:induction false} GreenLoopStopsFirst(needed: int, minGreen: int, maxGreen: int,
                                               lights: seq<int>, total: int, draws: seq<nat>)
    requires minGreen <= maxGreen
    requires total == Sum(lights)
    ensures var r := GreenLoop(needed, minGreen, maxGreen, lights, total, draws);
      r.Some? ==> forall k :: |lights| <= k < |r.value.lights| ==> Sum(r.value.lights[..k]) < needed
    decreases |draws|
  {
    if total < needed && |draws| > 0 {
      var g := GreenDraw(minGreen, maxGreen, draws[0]);
      SumSnoc(lights, g);
      GreenLoopShape(needed, minGreen, maxGreen, lights + [g], total + g, draws[1..]);
      GreenLoopStopsFirst(needed, minGreen, maxGreen, lights + [g], total + g, draws[1..]);
      var r := GreenLoop(needed, minGreen, maxGreen, lights, total, draws);
      if r.Some? {
        assert r.value.lights[..|lights|] == (r.value.lights[..|lights| + 1])[..|lights|];
      }
    }
  }

  /** Step 1 of `timeIntervals`: the green durations, which are the draws
      scaled into `[minGreen, maxGreen]`, taken up to the first point at which
      their total reaches `needed`. */
  function DrawGreens(needed: int, minGreen: int, maxGreen: int, draws: seq<nat>): (r: Option<Greens>)
    requires minGreen <= maxGreen
    ensures r.Some? ==> r.value.total == Sum(r.value.lights) && r.value.total >= needed
    ensures r.Some? ==> forall k :: 0 <= k < |r.value.lights| ==> minGreen <= r.value.lights[k] <= maxGreen
    ensures r.Some? ==> |r.value.lights| <= |draws| && r.value.rest == draws[|r.value.lights|..]
    ensures r.Some? ==> forall k :: 0 <= k < |r.value.lights| ==>
      r.value.lights[k] == GreenDraw(minGreen, maxGreen, draws[k])
    ensures r.Some? ==> forall k :: 0 <= k < |r.value.lights| ==> Sum(r.value.lights[..k]) < needed
    ensures r.Some? ==> (|r.value.lights| > 0 <==> needed > 0)
    ensures r.Some? && |r.value.lights| > 0 ==> r.value.total < needed + maxGreen
  {
    var r := GreenLoop(needed, minGreen, maxGreen, [], 0, draws);
    GreenLoopShape(needed, minGreen, maxGreen, [], 0, draws);
    GreenLoopDraws(needed, minGreen, maxGreen, [], 0, draws);
    GreenLoopStopsFirst(needed, minGreen, maxGreen, [], 0, draws);
    if r.Some? && |r.value.lights| > 0 then
      var n := |r.value.lights|;
      SumPrefix(r.value.lights, n - 1);
      assert r.value.lights[..n] == r.value.lights;
      assert Sum(r.value.lights[..0]) < needed;
      r
    else
      r
  }

  /** With green durations of at least one second and one draw per second of
      `needed - total`, the green loop ends. */
  lemma {:induction false} GreenLoopEnds(needed: int, minGreen: int, maxGreen: int,
                                         lights: seq<int>, total: int, draws: seq<nat>)
    requires 1 <= minGreen <= maxGreen
    requires |draws| >= needed - total
    ensures GreenLoop(needed, minGreen, maxGreen, lights, total, draws).Some?
    decreases |draws|
  {
    if total < needed {
      var g := GreenDraw(minGreen, maxGreen, draws[0]);
      GreenLoopEnds(needed, minGreen, maxGreen, lights + [g], total + g, draws[1..]);
    }
  }

  /** Step 3 of `timeIntervals`: `green[0], red[0], green[1], red[1], ...`. */
  function Interleave(greens: seq<int>, reds: seq<int>): (r: seq<Interval>)
    requires |greens| == |reds|
    ensures |r| == 2 * |greens|
    ensures forall k :: 0 <= k < |r| ==>
      r[k] == (if k % 2 == 0 then Interval(Green, greens[k / 2]) else Interval(Red, reds[k / 2]))
  {
    if |greens| == 0 then []
    else
      var rest := Interleave(greens[1..], reds[1..]);
      var r := [Interval(Green, greens[0]), Interval(Red, reds[0])] + rest;
      assert forall k :: 2 <= k < |r| ==> r[k] == rest[k - 2] && (k - 2) / 2 == k / 2 - 1;
      r
  }

  /** The whole generator on the given draws: `None` when the draws run out
      before one of its two loops ends. */
  function TimeIntervals(c: Config, draws: seq<nat>): (r: Option<seq<Interval>>)
    requires ValidConfig(c)
    ensures r.Some? ==> Alternating(r.value)
    ensures r.Some? ==> forall k :: 0 <= k < |r.value| && r.value[k].color == Green ==>
      c.minGreen <= r.value[k].duration <= c.maxGreen
    ensures r.Some? ==> forall k :: 0 <= k < |r.value| && r.value[k].color == Red ==>
      c.minRed <= r.value[k].duration <= PartCeiling(c.minRed, c.maxRed)
    ensures r.Some? ==> |r.value| / 2 <= |draws|
    ensures r.Some? ==> forall k :: 0 <= k < |r.value| && k % 2 == 0 ==>
      r.value[k].duration == GreenDraw(c.minGreen, c.maxGreen, draws[k / 2])
    ensures r.Some? ==> ColorTime(r.value, Green) >= GreenNeeded(c)
    ensures r.Some? && |r.value| > 0 ==> ColorTime(r.value, Green) < GreenNeeded(c) + c.maxGreen
    ensures r.Some? ==> (|r.value| > 0 <==> GreenNeeded(c) > 0)
    ensures r.Some? ==>
      var reds := Split(c.totalTime - ColorTime(r.value, Green), |r.value| / 2, c.minRed, c.maxRed, draws[|r.value| / 2..]);
      && reds.Some?
      && forall k :: 0 <= k < |r.value| && k % 2 == 1 ==> r.value[k].duration == reds.value[k / 2]
    ensures r.Some? && c.totalTime - ColorTime(r.value, Green) <= c.minRed * (|r.value| / 2) ==>
      forall k :: 0 <= k < |r.value| && k % 2 == 1 ==> r.value[k].duration == c.minRed
  {
    match DrawGreens(GreenNeeded(c), c.minGreen, c.maxGreen, draws)
    case None => None
    case Some(g) =>
      var numLights := |g.lights|;
      match Split(c.totalTime - g.total, numLights, c.minRed, c.maxRed, g.rest)
      case None => None
      case Some(reds) =>
        InterleaveTimes(g.lights, reds);
        Some(Interleave(g.lights, reds))
  }

  /** Green at even positions, red at odd ones, in pairs. */
  predicate Alternating(s: seq<Interval>)
  {
    |s| % 2 == 0 && forall k :: 0 <= k < |s| ==> s[k].color == (if k % 2 == 0 then Green else Red)
  }

  /** The seconds a schedule lasts. */
  function TotalDuration(s: seq<Interval>): int
  {
    if |s| == 0 then 0 else s[0].duration + TotalDuration(s[1..])
  }

  /** The seconds a schedule spends in intervals of one colour. */
  function ColorTime(s: seq<Interval>, color: Color): int
  {
    if |s| == 0 then 0
    else (if s[0].color == color then s[0].duration else 0) + ColorTime(s[1..], color)
  }

  /** A schedule's length is its green time plus its red time. */
  lemma {:induction false} TotalIsGreenPlusRed(s: seq<Interval>)
    ensures TotalDuration(s) == ColorTime(s, Green) + ColorTime(s, Red)
  {
    if |s| > 0 {
      TotalIsGreenPlusRed(s[1..]);
    }
  }

  /** Interleaving keeps each list's total as that colour's time. */
  lemma {:induction false} InterleaveTimes(greens: seq<int>, reds: seq<int>)
    requires |greens| == |reds|
    ensures ColorTime(Interleave(greens, reds), Green) == Sum(greens)
    ensures ColorTime(Interleave(greens, reds), Red) == Sum(reds)
  {
    if |greens| > 0 {
      var s := Interleave(greens, reds);
      var rest := Interleave(greens[1..], reds[1..]);
      assert s[1..][1..] == rest;
      InterleaveTimes(greens[1..], reds[1..]);
    }
  }

  /** A schedule whose red intervals are never negative lasts at least its green time. */
  lemma {:induction false} RedTimeNonNegative(s: seq<Interval>)
    requires forall k :: 0 <= k < |s| && s[k].color == Red ==> s[k].duration >= 0
    ensures ColorTime(s, Red) >= 0
  {
    if |s| > 0 {
      RedTimeNonNegative(s[1..]);
    }
  }

  /** The generator does not fail when the green time needed already exceeds
      `totalTime`: it returns a schedule longer than `totalTime`. */
  lemma ScheduleOvershootsWhenGreenExceedsTotal(c: Config, draws: seq<nat>)
    requires ValidConfig(c) && c.minRed >= 0
    requires GreenNeeded(c) > c.totalTime
    requires TimeIntervals(c, draws).Some?
    ensures TotalDuration(TimeIntervals(c, draws).value) > c.totalTime
  {
    var s := TimeIntervals(c, draws).value;
    TotalIsGreenPlusRed(s);
    RedTimeNonNegative(s);
  }

  /** When the time left for red cannot exceed `minRed` per pair, the
      splitter has nothing to hand out: given enough draws for the green
      loop, the generator always returns, with every red at `minRed`. */
  lemma NoRedSurplusAlwaysSchedules(c: Config, draws: seq<nat>)
    requires ValidConfig(c) && 1 <= c.minGreen && 0 <= c.minRed
    requires GreenNeeded(c) > 0
    requires c.totalTime <= GreenNeeded(c) + c.minRed
    requires |draws| >= GreenNeeded(c)
    ensures TimeIntervals(c, draws).Some?
    ensures forall k :: 0 <= k < |TimeIntervals(c, draws).value| && k % 2 == 1 ==>
      TimeIntervals(c, draws).value[k] == Interval(Red, c.minRed)
  {
    GreenLoopEnds(GreenNeeded(c), c.minGreen, c.maxGreen, [], 0, draws);
    var g := DrawGreens(GreenNeeded(c), c.minGreen, c.maxGreen, draws).value;
    var n := |g.lights|;
    assert n >= 1;
    assert c.minRed * n >= c.minRed;
    var reds := Split(c.totalTime - g.total, n, c.minRed, c.maxRed, g.rest);
    assert reds == Some(seq(n, _ => c.minRed));
  }

  /** With 60 seconds in all, a track of 800 and speed 1, the 807 seconds of
      green needed cannot fit: the generator nevertheless returns (given
      enough draws) a schedule that lasts longer than 60 seconds. */
  lemma LongTrackGivesOverlongSchedule(draws: seq<nat>)
    requires |draws| >= 807
    ensures TimeIntervals(WithDefaultBounds(60, 800, 1), draws).Some?
    ensures TotalDuration(TimeIntervals(WithDefaultBounds(60, 800, 1), draws).value) > 60
  {
    var c := WithDefaultBounds(60, 800, 1);
    assert GreenNeeded(c) == 807;
    NoRedSurplusAlwaysSchedules(c, draws);
    ScheduleOvershootsWhenGreenExceedsTotal(c, draws);
  }
}
