# Red Light, Green Light — a Dafny model of the game's decision logic

The game moves a square along a track with the arrow keys while a light
cycles through green, yellow and red. Moving under red loses, and so does
running out of the 60-second countdown. Reaching the end of the track wins.
This project models the game's logic as pure Dafny functions and proves
properties about them:

- `random.dfy` (`Random`): `Math.floor(Math.random() * n)`. Each call takes
  one natural-number draw from an explicit sequence, so the model has no
  floats and a run is a function of its draws.
- `split.dfy` (`RedSplit`): `splitTimeEvenlyWithRandomness`, the red-time
  splitter. Its `while (remaining > 0)` loop recurses on the draw sequence,
  and it returns `None` when the draws run out. The source loop need not
  end, and its parts need not add up to `total`. The model proves both
  facts and does not assume either away.
- `schedule.dfy` (`Schedule`): `timeIntervals`. It draws greens until their
  total covers `ceil(distance / speed) + 7`, asks the splitter for as many
  reds, and interleaves the two lists green first.
- `playback.dfy` (`Playback`): `runLights`, as the timeline of
  `(phase, start, length, redLight)` segments it produces. The model does not
  simulate the timers. `ScheduledPhase` is an independent reference reading
  of a schedule, and the timeline is proved to agree with it at every moment.
- `round.dfy` (`Round`): the round's state `(x, timeLeft, redLight)`. It
  covers the `keydown` handler, the one-second `updateGameTime` tick, the
  reset done by `initGame`/`stopGame`, and the schedule `startGame`
  requests.
- `basics.dfy` (`Basics`): `Option` and `Sum`, with the sum lemmas.

Inputs the page supplies become parameters:
- the track width, `canvas.width`;
- the random numbers, as the draw sequence;
- the passage of time: timeline start times, and `Second` events in a round.

## Model

| member | source | states |
|---|---|---|
| Random.Below | script.js:146 | for the non-negative `n` every call site passes, a draw scaled by `floor(random * n)` lies in `[0, n)`, and is 0 when `n` is 0 (also used for the index and value draws at lines 173 and 177) |
| Random.BelowReachesAll | script.js:173 | every value in `[0, n)` is produced by some draw, so the draw sequences cover every behaviour of the source |
| RedSplit.InitialSplit | script.js:169-170 | every part at `min` and `remaining = total - min*parts`; no contract of its own: `SplitRun` starts from it and `Split` states the untouched all-`min` case |
| RedSplit.SplitLoop | script.js:172-182 | the `while (remaining > 0)` loop; it has no contract of its own: `LoopKeepsBookkeeping`, `RaisedPartsStay` and `StuckLoopNeverEnds` state its behaviour |
| RedSplit.SplitRun | script.js:168-185 | on return: `parts` entries, each in `[min, max-1]` (or `min` when `min == max`); `remaining == total - min*parts - (sum handed out)`; `remaining <= 0`; an overshoot below one part's ceiling; and the parts sum to `total - remaining - min*(number of values handed out)`, which is not `total` in general |
| RedSplit.Split | script.js:168-185 | exactly `parts` entries, each in `[min, max-1]` (or equal to `min` when `min == max`); if `total <= min*parts`, the all-`min` array untouched for any draws |
| RedSplit.LoopKeepsBookkeeping | script.js:172-182 | the loop invariant (entry count and range; `remaining` equals the initial surplus minus everything handed out) holds on exit, and the exit has `remaining <= 0` |
| RedSplit.RaiseKeepsBookkeeping | script.js:176-180 | overwriting a part still at `min` with a value of the range, and subtracting it, keeps the invariant |
| RedSplit.RaisedPartsStay | script.js:176-177 | a part already different from `min` is never overwritten again |
| RedSplit.StuckLoopNeverEnds | script.js:172-182 | once every part differs from `min` while `remaining > 0`, the loop never ends, whatever the draws |
| RedSplit.TwoRaisedPartsDiverge | script.js:168-185 | with total 20, two parts and range `[2, 5)`, raising both parts to 4 leaves 8 seconds no index can take: no continuation of the draws ends the loop |
| RedSplit.SplitCanUndershoot | script.js:168-185 | splitting 5 seconds into one part of `[2, 5)` can return `[3]`, which does not sum to `total` |
| Schedule.WithDefaultBounds | script.js:134-137 | the default bounds 2, 5, 2 and 5 of `timeIntervals`; no contract of its own: `LongTrackGivesOverlongSchedule` and `Round.StartSchedule` use it |
| Schedule.GreenNeeded | script.js:139-140 | `ceil(distance/speed) + 7`; no contract of its own: `CeilDiv` states the ceiling, and `TimeIntervals` and `DrawGreens` state the green time reaching it |
| Schedule.CeilDiv | script.js:139 | the result `q` is `ceil(a / b)`: `(q-1)*b < a <= q*b` |
| Schedule.GreenDraw | script.js:146 | every green duration lies in `[minGreenTime, maxGreenTime]` |
| Schedule.GreenDrawReachesAll | script.js:146 | every duration in `[minGreenTime, maxGreenTime]` is drawn by some draw, so the range bound is tight |
| Schedule.GreenLoop | script.js:145-149 | the green `while` loop; it has no contract of its own: `GreenLoopShape`, `GreenLoopDraws`, `GreenLoopStopsFirst` and `GreenLoopEnds` state its behaviour |
| Schedule.DrawGreens | script.js:139-151 | the greens are the draws, scaled and in order, one draw each; their running total equals their sum and is at least `greenTimeNeeded`; every earlier total was below it; there is a green exactly when `greenTimeNeeded > 0`, and then the total is below `greenTimeNeeded + maxGreenTime` |
| Schedule.GreenLoopShape | script.js:145-149 | the loop keeps `greenTimeAccumulated` equal to the sum of `greenLights`, only appends, and uses one draw per green |
| Schedule.GreenLoopDraws | script.js:145-149 | the k-th appended green is the k-th draw scaled into `[minGreenTime, maxGreenTime]` |
| Schedule.GreenLoopStopsFirst | script.js:145-149 | the loop stops at the first total that reaches the target |
| Schedule.GreenLoopEnds | script.js:145-149 | when `minGreenTime >= 1`, the green loop ends on any draw sequence long enough to cover the missing seconds |
| Schedule.Interleave | script.js:158-164 | the output has `2*numLights` entries: entry `2i` is green with `greenLights[i]`, entry `2i+1` is red with `redLights[i]` |
| Schedule.InterleaveTimes | script.js:158-164 | the schedule's green time is the sum of the greens and its red time the sum of the reds |
| Schedule.TimeIntervals | script.js:130-165 | a returned schedule alternates green/red starting with green; greens lie in `[minGreen, maxGreen]` and reds in `[minRed, maxRed-1]`; the i-th green is the i-th draw; green time is at least `ceil(distance/speed) + 7` and below that plus `maxGreen`; the schedule is empty exactly when no green time is needed; the reds are the splitter's parts for `totalTime` minus the green time, on the draws after the greens, so when that red time is at most `minRed` per pair every red is `minRed` |
| Schedule.ScheduleOvershootsWhenGreenExceedsTotal | script.js:150-155 | when the green time needed exceeds `totalTime`, a schedule the generator returns, with `minRed >= 0`, lasts longer than `totalTime` |
| Schedule.NoRedSurplusAlwaysSchedules | script.js:150-155 | when `totalTime` leaves no red surplus, the generator returns for any draw sequence long enough for the green loop, with every red at `minRed` |
| Schedule.LongTrackGivesOverlongSchedule | script.js:139-155 | with 60 seconds, distance 800 and speed 1, the generator returns a schedule longer than 60 seconds, and nothing reports it |
| Playback.Wait | script.js:193 | `setTimeout` runs a negative delay as 0; no contract of its own: `SlotLength` states the time each interval occupies |
| Playback.PlayInterval | script.js:200-210 | one pass of the `runLights` loop; no contract of its own: `PhaseOfOneInterval` and `PhaseWithinInterval` state what it shows |
| Playback.SlotLength | script.js:204-210 | a green interval of at least one second and a non-negative red interval each occupy exactly their duration |
| Playback.Timeline | script.js:198-211 | segments are contiguous from the start time; `redLight` is up exactly on red segments; every yellow segment lasts 1 second and directly follows a green one |
| Playback.TimelineEnd | script.js:198-211 | playback ends after the sum of the durations |
| Playback.LastStarted | script.js:199-202 | the label and flag at time `t` are those of the segment most recently started (the last whose start is not after `t`) |
| Playback.PhaseAt | script.js:202-206 | the light label at time `t`, from the segment last started; no contract of its own: `PlaybackShowsSchedule` states it equals the reference reading |
| Playback.RedLightAt | script.js:201 | the `redLight` flag at time `t`; no contract of its own: `RedLightExactlyDuringRed` states it is up exactly when the reference reading is Red |
| Playback.PhaseOfOneInterval | script.js:200-210 | one round of the loop shows nothing before it starts, the interval's phase while it runs, and its final phase after |
| Playback.PlaybackShowsSchedule | script.js:198-211 | the label at every moment equals the reference reading `ScheduledPhase` of the schedule |
| Playback.RedLightExactlyDuringRed | script.js:201 | `redLight` is true exactly when the reference reading is Red |
| Playback.PhaseWithinInterval | script.js:204-210 | `v` seconds into interval `i`, a green interval shows Green while `v < d-1` and Yellow in its last second; a red interval shows Red and never Yellow |
| Playback.AfterTheEnd | script.js:198-211 | after the last interval, its final phase stays on display |
| Playback.GeneratedScheduleEndsRed | script.js:158-164 | a generated schedule ends on red, so after playback the light stays Red and the flag stays up |
| Playback.GreenThreeRedTwo | script.js:198-211 | replaying green 3 then red 2 gives Green at 0, Yellow at 2 and Red at 3, and ends at 5 |
| Round.InitGame | script.js:13-28 | the reset puts the player at 0, with 60 seconds left and the red flag down, a valid state for every track width |
| Round.EndRound | script.js:45-49 | `stopGame` ends a round with the given outcome and leaves the state `initGame` sets: player at 0, 60 seconds left, red flag down |
| Round.MoveX | script.js:85 | the move of the arrow keys (lines 85 and 101); no contract of its own: `KeysMoveThePlayer` states it |
| Round.KeyDown | script.js:83-108 | an arrow press under `redLight` loses, and this is checked before the win test; a win needs ArrowRight, no red, and the moved `x` at `width-10` or beyond; a round that ends is reset; otherwise only `x` changes |
| Round.KeysMoveThePlayer | script.js:84-101 | on a valid state under no red: ArrowLeft moves one pixel back but not below 0; ArrowRight either wins or moves one pixel forward; other keys change nothing |
| Round.WinsExactlyAtTheGoal | script.js:84-98 | from a valid state, a key press wins exactly when it is ArrowRight, the light is not red, and `x >= width - 11` |
| Round.Tick | script.js:112-121 | the tick never wins; it loses exactly when `timeLeft` was at most 1, and otherwise takes one second off |
| Round.Apply | script.js:83-121 | dispatch of one event (key press, timer second, light change); no contract of its own: `ApplyKeepsValid` states what it keeps |
| Round.Run | script.js:83-121 | a round as a sequence of events up to the first that ends it; no contract of its own: `RunKeepsValid`, `RightPressesWin`, `SixtySecondsLose` and `ArrowLosesDuringPlayback` state its behaviour |
| Round.ApplyKeepsValid | script.js:83-121 | every key press, tick or light change keeps `0 <= x`, keeps `x` short of the goal unless at the start, and keeps `timeLeft` in `[1, 60]` |
| Round.RunKeepsValid | script.js:83-121 | a whole round of events keeps that invariant |
| Round.RightPressesAdvance | script.js:85 | under no red, each right press short of the goal moves the player one pixel |
| Round.RightPressesWin | script.js:84-98 | under no red, exactly `width - 10 - x` right presses win |
| Round.SecondsCountDown | script.js:112-121 | with `T` seconds left, each of the first `T-1` ticks takes one second off and the round continues |
| Round.SixtySecondsLose | script.js:112-121 | from a fresh round, 59 ticks keep it going and the 60th loses |
| Round.ArrowLosesExactlyUnderRed | script.js:87-106 | given a round whose flag is the timeline's flag at time `t`, an arrow press loses exactly when the schedule shows Red at `t` |
| Round.Entries | script.js:201 | the flag writes of `runLights`, one event per interval begun; no contract of its own: `EntriesSetFlag` states their effect |
| Round.EntriesSetFlag | script.js:199-201 | after intervals `0..j` have begun, the round's flag is the colour test of interval `j` (the last write wins) and nothing else in the round has changed |
| Round.FlagWithinInterval | script.js:201-210 | inside interval `j`, the flag interval `j` wrote is up exactly when the schedule shows Red |
| Round.ArrowLosesDuringPlayback | script.js:87-106 | in a round driven by the flag writes of intervals `0..j`, an arrow press `v` seconds into interval `j` loses exactly when the schedule shows Red at that moment |
| Round.StartSchedule | script.js:38-42 | the schedule `startGame` requests, for 60 seconds, the track width and speed 8, is non-empty and alternating, with greens of 2-5 s, reds of 2-4 s, and at least `ceil(width/8) + 7` seconds of green |
| Round.StartScheduleOutlastsTheRound | script.js:38-42 | on a track of 425 pixels or more, a schedule the game's own call returns lasts longer than the 60-second round |

## What the code does not guarantee

The comment at script.js:129 promises a "winnable pattern", and the one at
line 154 says the reds "total up to remainingRedTime". The code keeps
neither promise in general, and the model follows the code:
- The reds need not add up to the red time, so a schedule need not last
  `totalTime`: `SplitCanUndershoot`, `ScheduleOvershootsWhenGreenExceedsTotal`.
- The reds are drawn from `[minRed, maxRed - 1]` (line 177), so `maxRed`
  itself never occurs: `Split`.
- Too little total time is not reported. The generator returns a schedule
  longer than the round: `Round.StartScheduleOutlastsTheRound` for the
  game's own call on a track of 425 pixels or more, and
  `LongTrackGivesOverlongSchedule` for a slower speed.
- The splitter's loop may never end. It does not hang on every draw
  sequence, though. A raise to exactly `min` still subtracts `min` and
  leaves the part eligible, so the loop can sometimes drain `remaining`
  that way. `StuckLoopNeverEnds` gives the condition under which it always
  hangs.

## Left out

- Drawing and page updates are side effects with no decision logic, so they
  are left out. This covers `drawRoad`, `clearCanvas`, `Player.draw`,
  `movePlayer`, the label and time-left text, the start button's
  listeners, `alert` and `console.log`. `movePlayer`'s `this.x = x` does not
  touch `player`.
- Timers are modelled only through the timeline they produce. This covers
  `setInterval`, `setTimeout`, `clearInterval`, and the awaits in
  `lightDelay`/`runLights`. Cancelling a pending light delay, and whether a
  late callback can fire after a reset, are not modelled. `Round.Run` just
  stops at the first event that ends a round.
- `Math.random` is replaced by explicit draws. Its uniform distribution is
  not modelled: only which values are possible.
- `canvas.width` is a parameter, because its value comes from the page.
- `Math.ceil(distance / speed)` is computed on integers (`CeilDiv`). The
  source divides in floating point, which gives the same result for a
  canvas width divided by 8.
- The `DOMContentLoaded` hook and the button wiring only call `initGame`,
  `startGame` and `stopGame`. Their effect on the state is `InitGame` and
  `EndRound`.
- Schedule.TimeIntervals: does not claim the schedule sums to `totalTime`,
  because the code does not ensure it (see the section above).
