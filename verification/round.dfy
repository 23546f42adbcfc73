/** The round's state machine (script.js:5-49, 83-121): the player's
    position, the countdown, the `redLight` flag, and the rules that end a
    round. Drawing, labels, alerts and timer handles are left to the page;
    ending a round (`stopGame`) is modelled as the reset it performs. */
module Round {
  import opened Basics
  import opened Schedule
  import opened Playback

  /** Pixels the player moves per arrow press. */
  const PlayerSpeed: int := 1
  /** Seconds on the countdown at the start of a round. */
  const TotalGameTime: int := 60
  /** Side of the player's square: the goal is this far before the track's end. */
  const PlayerSize: int := 10
  /** The speed `startGame` passes to the schedule generator. */
  const ScheduleSpeed: int := 8

  datatype Key = ArrowRight | ArrowLeft | OtherKey

  /** How a step of the round ends: it goes on, or the player has won or lost. */
  datatype Outcome = Continue | Won | Lost

  /** The state the handlers share: `player.x`, `timeLeft` and `redLight`. */
  datatype Game = Game(x: int, timeLeft: int, redLight: bool)

  /** The state after a handler ran, and how it ended. */
  datatype Step = Step(game: Game, outcome: Outcome)

  /** The start-of-round defaults `initGame` restores. */
  function InitGame(): (g: Game)
    ensures g.x == 0 && g.timeLeft == TotalGameTime && !g.redLight
    ensures forall width :: Valid(g, width)
  {
    Game(0, TotalGameTime, false)
  }

  /** `stopGame`: the timers are cleared and `initGame` resets the state; the
      outcome is what the alert reports. */
  function EndRound(outcome: Outcome): (r: Step)
    ensures r.outcome == outcome
    ensures r.game.x == 0 && r.game.timeLeft == TotalGameTime && !r.game.redLight
  {
    Step(InitGame(), outcome)
  }

  /** The position at which the player has reached the end of a track of
      `width` pixels. */
  function Goal(width: int): int
  {
    width - PlayerSize
  }

  /** The new `player.x` after a key press, before the round's rules apply. */
  function MoveX(x: int, key: Key, width: int): int
  {
    match key
    case ArrowRight => if x >= Goal(width) then Goal(width) else x + PlayerSpeed
    case ArrowLeft => if x <= 0 then 0 else x - PlayerSpeed
    case OtherKey => x
  }

  /** The `keydown` handler. An arrow press under a red light loses, and
      that test comes before the test for the goal; only a right press that
      reaches the goal under a non-red light wins; other keys change nothing. */
  function KeyDown(g: Game, key: Key, width: int): (r: Step)
    ensures r.outcome == Lost <==> key != OtherKey && g.redLight
    ensures r.outcome == Won <==> key == ArrowRight && !g.redLight && MoveX(g.x, key, width) >= Goal(width)
    ensures r.outcome != Continue ==> r == EndRound(r.outcome)
    ensures r.outcome == Continue ==> r.game == g.(x := MoveX(g.x, key, width))
  {
    match key
    case ArrowRight =>
      var x := MoveX(g.x, key, width);
      if g.redLight then EndRound(Lost)
      else if x >= Goal(width) then EndRound(Won)
      else Step(g.(x := x), Continue)
    case ArrowLeft =>
      var x := MoveX(g.x, key, width);
      if g.redLight then EndRound(Lost)
      else Step(g.(x := x), Continue)
    case OtherKey => Step(g, Continue)
  }

  /** `updateGameTime`, run once a second: one second less, and the round is
      lost when none is left. */
  function Tick(g: Game): (r: Step)
    ensures r.outcome != Won
    ensures r.outcome == Lost <==> g.timeLeft <= 1
    ensures r.outcome == Lost ==> r == EndRound(Lost)
    ensures r.outcome == Continue ==> r.game == g.(timeLeft := g.timeLeft - 1)
  {
    var timeLeft := g.timeLeft - 1;
    if timeLeft <= 0 then EndRound(Lost)
    else Step(g.(timeLeft := timeLeft), Continue)
  }

  /** What can happen during a round: a key press, a second of the
      countdown, or `runLights` entering an interval of a colour. */
  datatype Event = Press(key: Key) | Second | EnterInterval(color: Color)

  /** One event. Entering an interval sets `redLight` to whether it is red. */
  function Apply(g: Game, e: Event, width: int): Step
  {
    match e
    case Press(key) => KeyDown(g, key, width)
    case Second => Tick(g)
    case EnterInterval(color) => Step(g.(redLight := color == Red), Continue)
  }

  /** A round driven by a sequence of events, up to the first that ends it. */
  function Run(g: Game, events: seq<Event>, width: int): Step
    decreases |events|
  {
    if |events| == 0 then Step(g, Continue)
    else
      var st := Apply(g, events[0], width);
      if st.outcome != Continue then st else Run(st.game, events[1..], width)
  }

  /** `n` copies of one event. */
  function Repeat(e: Event, n: nat): (r: seq<Event>)
    ensures |r| == n && forall k :: 0 <= k < n ==> r[k] == e
  {
    seq(n, _ => e)
  }

  /** The states a round can be in: the player is on the track, short of the
      goal unless still at the start, and the countdown has 1 to 60 seconds. */
  predicate Valid(g: Game, width: int)
  {
    && 0 <= g.x && (g.x == 0 || g.x < Goal(width))
    && 1 <= g.timeLeft <= TotalGameTime
  }

  /** Every event keeps the state valid, whether or not it ends the round. */
  lemma ApplyKeepsValid(g: Game, e: Event, width: int)
    requires Valid(g, width)
    ensures Valid(Apply(g, e, width).game, width)
  {
  }

  /** A whole round keeps the state valid. */
  lemma {:induction false} RunKeepsValid(g: Game, events: seq<Event>, width: int)
    requires Valid(g, width)
    ensures Valid(Run(g, events, width).game, width)
    decreases |events|
  {
    if |events| > 0 {
      ApplyKeepsValid(g, events[0], width);
      RunKeepsValid(Apply(g, events[0], width).game, events[1..], width);
    }
  }

  /** How the keys move a player on the track while the light is not red:
      left goes one pixel back but not past 0, right goes one pixel forward
      unless that press wins, and any other key changes nothing at all. */
  lemma KeysMoveThePlayer(g: Game, width: int)
    requires Valid(g, width) && !g.redLight
    ensures KeyDown(g, ArrowLeft, width) == Step(g.(x := if g.x == 0 then 0 else g.x - 1), Continue)
    ensures KeyDown(g, ArrowRight, width).outcome == Continue ==>
      KeyDown(g, ArrowRight, width).game == g.(x := g.x + 1)
    ensures KeyDown(g, OtherKey, width) == Step(g, Continue)
  {
  }

  /** From a valid state, a key press wins exactly when it is a right press,
      the light is not red, and the player is one step from the goal or
      already on it. */
  lemma WinsExactlyAtTheGoal(g: Game, key: Key, width: int)
    requires Valid(g, width)
    ensures KeyDown(g, key, width).outcome == Won <==>
      key == ArrowRight && !g.redLight && g.x >= Goal(width) - PlayerSpeed
  {
  }

  /** Under a non-red light, right presses move the player one pixel each
      while the goal is still ahead. */
  lemma {:induction false} RightPressesAdvance(g: Game, n: nat, width: int)
    requires !g.redLight && 0 <= g.x && g.x + n < Goal(width)
    ensures Run(g, Repeat(Press(ArrowRight), n), width) == Step(g.(x := g.x + n), Continue)
    decreases n
  {
    if n > 0 {
      var g' := g.(x := g.x + 1);
      assert Repeat(Press(ArrowRight), n)[1..] == Repeat(Press(ArrowRight), n - 1);
      RightPressesAdvance(g', n - 1, width);
    }
  }

  /** Under a non-red light the player wins with exactly as many right presses
      as pixels remain to the goal. */
  lemma RightPressesWin(g: Game, width: int)
    requires !g.redLight && 0 <= g.x < Goal(width)
    ensures Run(g, Repeat(Press(ArrowRight), Goal(width) - g.x), width) == EndRound(Won)
  {
    var n := Goal(width) - g.x;
    var es := Repeat(Press(ArrowRight), n);
    assert es == Repeat(Press(ArrowRight), n - 1) + [Press(ArrowRight)];
    RightPressesAdvance(g, n - 1, width);
    RunConcat(g, Repeat(Press(ArrowRight), n - 1), [Press(ArrowRight)], width);
  }

  /** Running two event sequences one after the other, when the first leaves
      the round going. */
  lemma {:induction false} RunConcat(g: Game, a: seq<Event>, b: seq<Event>, width: int)
    requires Run(g, a, width).outcome == Continue
    ensures Run(g, a + b, width) == Run(Run(g, a, width).game, b, width)
    decreases |a|
  {
    if |a| > 0 {
      var st := Apply(g, a[0], width);
      assert st.outcome == Continue;
      assert (a + b)[0] == a[0] && (a + b)[1..] == a[1..] + b;
      assert Run(g, a + b, width) == Run(st.game, a[1..] + b, width);
      RunConcat(st.game, a[1..], b, width);
    } else {
      assert a + b == b;
    }
  }

  /** The countdown: with `T` seconds left, the first `T - 1` seconds each
      take one off, and the `T`-th loses the round. */
  lemma {:induction false} SecondsCountDown(g: Game, n: nat, width: int)
    requires n < g.timeLeft
    ensures Run(g, Repeat(Second, n), width) == Step(g.(timeLeft := g.timeLeft - n), Continue)
    decreases n
  {
    if n > 0 {
      assert Repeat(Second, n)[1..] == Repeat(Second, n - 1);
      SecondsCountDown(g.(timeLeft := g.timeLeft - 1), n - 1, width);
    }
  }

  /** A round in which nobody presses a key is lost on its sixtieth second. */
  lemma SixtySecondsLose(width: int)
    ensures Run(InitGame(), Repeat(Second, TotalGameTime - 1), width).outcome == Continue
    ensures Run(InitGame(), Repeat(Second, TotalGameTime), width) == EndRound(Lost)
  {
    var g := InitGame();
    SecondsCountDown(g, TotalGameTime - 1, width);
    assert Repeat(Second, TotalGameTime) == Repeat(Second, TotalGameTime - 1) + [Second];
    RunConcat(g, Repeat(Second, TotalGameTime - 1), [Second], width);
  }

  /** While a schedule plays, the flag the key handler reads is the one the
      timeline holds: an arrow press at time `t` loses exactly when the
      schedule shows Red at `t`. */
  lemma ArrowLosesExactlyUnderRed(g: Game, s: seq<Interval>, t0: int, t: int, key: Key, width: int)
    requires WellFormed(s)
    requires g.redLight == RedLightAt(Timeline(s, t0), t)
    ensures KeyDown(g, key, width).outcome == Lost <==>
      key != OtherKey && ScheduledPhase(s, t - t0) == Some(RedPhase)
  {
    RedLightExactlyDuringRed(s, t0, t);
  }

  /** The flag writes of `runLights` (script.js:201), one per interval begun,
      as events of the round. */
  function Entries(s: seq<Interval>): seq<Event>
  {
    seq(|s|, i requires 0 <= i < |s| => EnterInterval(s[i].color))
  }

  /** After the intervals of `s` have begun, the round's flag is the one the
      last of them wrote, and nothing else has changed. */
  lemma {:induction false} EntriesSetFlag(g: Game, s: seq<Interval>, width: int)
    requires |s| > 0
    ensures Run(g, Entries(s), width) == Step(g.(redLight := s[|s| - 1].color == Red), Continue)
    decreases |s|
  {
    var last := [EnterInterval(s[|s| - 1].color)];
    if |s| == 1 {
      assert Entries(s) == last;
      assert last[1..] == [];
    } else {
      var p := s[..|s| - 1];
      EntriesSetFlag(g, p, width);
      assert Entries(s) == Entries(p) + last;
      RunConcat(g, Entries(p), last, width);
      assert last[1..] == [];
    }
  }

  /** Inside interval `j`, the flag the last begun interval wrote is up
      exactly when the schedule shows Red. */
  lemma FlagWithinInterval(s: seq<Interval>, j: nat, v: int)
    requires WellFormed(s)
    requires j < |s| && 0 <= v < s[j].duration
    ensures (s[j].color == Red) <==> ScheduledPhase(s, IntervalStart(s, j) + v) == Some(RedPhase)
  {
    PhaseWithinInterval(s, j, v);
  }

  /** A round that has seen intervals `0..j` of a schedule begin: an arrow
      press `v` seconds into interval `j` loses exactly when the schedule
      shows Red at that moment. */
  lemma ArrowLosesDuringPlayback(g: Game, s: seq<Interval>, j: nat, v: int, key: Key, width: int)
    requires WellFormed(s)
    requires j < |s| && 0 <= v < s[j].duration
    ensures KeyDown(Run(g, Entries(s[..j + 1]), width).game, key, width).outcome == Lost <==>
      key != OtherKey && ScheduledPhase(s, IntervalStart(s, j) + v) == Some(RedPhase)
  {
    var p := s[..j + 1];
    EntriesSetFlag(g, p, width);
    assert p[|p| - 1] == s[j];
    FlagWithinInterval(s, j, v);
    RedLightExactlyDuringRed(s, 0, IntervalStart(s, j) + v);
    ArrowLosesExactlyUnderRed(Run(g, Entries(p), width).game, s, 0, IntervalStart(s, j) + v, key, width);
  }

  /** The schedule `startGame` asks for: the round's 60 seconds, the track's
      width and speed 8, with the default bounds. A canvas width is never
      negative. */
  function StartSchedule(width: int, draws: seq<nat>): (r: Option<seq<Interval>>)
    requires width >= 0
    ensures r.Some? ==> Alternating(r.value) && |r.value| > 0
    ensures r.Some? ==> forall k :: 0 <= k < |r.value| ==>
      (if r.value[k].color == Green then 2 <= r.value[k].duration <= 5 else 2 <= r.value[k].duration <= 4)
    ensures r.Some? ==> ColorTime(r.value, Green) >= CeilDiv(width, ScheduleSpeed) + SafetyMargin
  {
    var c := WithDefaultBounds(TotalGameTime, width, ScheduleSpeed);
    var r := TimeIntervals(c, draws);
    assert GreenNeeded(c) > 0;
    r
  }

  /** On a track of 425 pixels or more, the green time the game's own call
      needs, `ceil(width / 8) + 7`, exceeds the round's 60 seconds: a schedule
      it returns lasts longer than the round, and nothing reports it. */
  lemma StartScheduleOutlastsTheRound(width: int, draws: seq<nat>)
    requires width >= 425
    ensures StartSchedule(width, draws).Some? ==> TotalDuration(StartSchedule(width, draws).value) > TotalGameTime
  {
    var c := WithDefaultBounds(TotalGameTime, width, ScheduleSpeed);
    if StartSchedule(width, draws).Some? {
      assert StartSchedule(width, draws) == TimeIntervals(c, draws);
      assert GreenNeeded(c) > TotalGameTime;
      ScheduleOvershootsWhenGreenExceedsTotal(c, draws);
    }
  }
}
