/** The red-time splitter `splitTimeEvenlyWithRandomness` (script.js:168-185).

    Every part starts at `min`. While time `remaining` is left, a random index
    is drawn; a part still at `min` is overwritten by a random value in
    `[min, max)` and that value is taken from `remaining`. The loop need not
    finish and its parts need not add up to `total`; both facts are proved
    below rather than assumed away. */
module RedSplit {
  import opened Basics
  import opened Random

  /** The loop's variables: the parts (`base`), the time still to hand out,
      and the log of every value handed out so far, in order. The log is not a
      variable of the source; it names the quantity its bookkeeping is about. */
  datatype SplitState = SplitState(parts: seq<int>, remaining: int, handedOut: seq<int>)

  /** The largest value a part can hold: `max - 1` when the range `[min, max)`
      is non-empty, and `min` itself when `min == max`. */
  function PartCeiling(min: int, max: int): int
  {
    if min < max then max - 1 else min
  }

  /** The facts the loop keeps: `count` parts, each in `[min, PartCeiling]`;
      `remaining` is the initial surplus minus everything handed out; and a part
      differs from `min` exactly by what the assignments that stuck added. */
  ghost predicate Bookkeeping(total: int, count: nat, min: int, max: int, s: SplitState)
  {
    && |s.parts| == count
    && (forall j :: 0 <= j < |s.parts| ==> min <= s.parts[j] <= PartCeiling(min, max))
    && s.remaining == total - min * count - Sum(s.handedOut)
    && Sum(s.parts) + min * |s.handedOut| == min * count + Sum(s.handedOut)
  }

  /** The `while (remaining > 0)` loop. Each round uses one draw for the index
      and, when the part there is still at `min`, one more for its new value.
      An index outside the parts (only possible when there are none) reads
      `undefined` in the source, which never equals `min`. Running out of
      draws yields `None`. */
  function SplitLoop(min: int, max: int, s: SplitState, draws: seq<nat>): (r: Option<SplitState>)
    requires min <= max
    decreases |draws|
  {
    if s.remaining <= 0 then Some(s)
    else if |draws| == 0 then None
    else
      var i := Below(draws[0], |s.parts|);
      if i < |s.parts| && s.parts[i] == min then
        if |draws| < 2 then None
        else
          var v := min + Below(draws[1], max - min);
          SplitLoop(min, max, SplitState(s.parts[i := v], s.remaining - v, s.handedOut + [v]), draws[2..])
      else
        SplitLoop(min, max, s, draws[1..])
  }

  /** The loop's starting state: every part at `min`, surplus `total - min * count`. */
  function InitialSplit(total: int, count: nat, min: int): SplitState
  {
    SplitState(seq(count, _ => min), total - min * count, [])
  }

  /** The loop's final state, when it finishes on `draws`. Besides the
      bookkeeping, it states the accounting of a finished split: the parts add
      up to `total`, plus the overshoot `-remaining`, minus `min` for every
      value handed out. So they add up to `total` only when those two terms
      cancel, which nothing in the loop arranges. */
  function SplitRun(total: int, count: nat, min: int, max: int, draws: seq<nat>): (r: Option<SplitState>)
    requires min <= max
    ensures r.Some? ==> Bookkeeping(total, count, min, max, r.value)
    ensures r.Some? ==> r.value.remaining <= 0
    ensures r.Some? && |r.value.handedOut| > 0 ==> r.value.remaining > -PartCeiling(min, max)
    ensures r.Some? ==> Sum(r.value.parts) == total - r.value.remaining - min * |r.value.handedOut|
  {
    var s0 := InitialSplit(total, count, min);
    SumConstant(min, count);
    LoopKeepsBookkeeping(total, count, min, max, s0, draws);
    SplitLoop(min, max, s0, draws)
  }

  /** `splitTimeEvenlyWithRandomness(total, parts, min, max)` on the given draws. */
  function Split(total: int, count: nat, min: int, max: int, draws: seq<nat>): (r: Option<seq<int>>)
    requires min <= max
    ensures r.Some? ==> |r.value| == count
    ensures r.Some? ==> forall j :: 0 <= j < count ==> min <= r.value[j] <= PartCeiling(min, max)
    ensures total <= min * count ==> r == Some(seq(count, _ => min))
  {
    match SplitRun(total, count, min, max, draws)
    case None => None
    case Some(s) => Some(s.parts)
  }

  /** The loop keeps its bookkeeping and ends with nothing left to hand out;
      when it had something to hand out, it overshoots by less than one
      part's ceiling. */
  lemma {:induction false} LoopKeepsBookkeeping(total: int, count: nat, min: int, max: int,
                                                s: SplitState, draws: seq<nat>)
    requires min <= max
    requires Bookkeeping(total, count, min, max, s)
    ensures var r := SplitLoop(min, max, s, draws);
      r.Some? ==>
        && Bookkeeping(total, count, min, max, r.value)
        && r.value.remaining <= 0
        && (s.remaining > 0 ==> r.value.remaining > -PartCeiling(min, max))
        && (s.remaining <= 0 ==> r.value == s)
    decreases |draws|
  {
    if s.remaining > 0 && |draws| > 0 {
      var i := Below(draws[0], |s.parts|);
      if i < |s.parts| && s.parts[i] == min {
        if |draws| >= 2 {
          var v := min + Below(draws[1], max - min);
          var s' := SplitState(s.parts[i := v], s.remaining - v, s.handedOut + [v]);
          RaiseKeepsBookkeeping(total, count, min, max, s, i, v);
          LoopKeepsBookkeeping(total, count, min, max, s', draws[2..]);
        }
      } else {
        LoopKeepsBookkeeping(total, count, min, max, s, draws[1..]);
      }
    }
  }

  /** Raising the part `i`, still at `min`, to a value `v` of the range
      keeps the bookkeeping. */
  lemma RaiseKeepsBookkeeping(total: int, count: nat, min: int, max: int, s: SplitState, i: nat, v: int)
    requires Bookkeeping(total, count, min, max, s)
    requires i < |s.parts| && s.parts[i] == min
    requires min <= v <= PartCeiling(min, max)
    ensures Bookkeeping(total, count, min, max, SplitState(s.parts[i := v], s.remaining - v, s.handedOut + [v]))
  {
    SumSnoc(s.handedOut, v);
    SumUpdate(s.parts, i, v);
  }

  /** A part already raised above `min` is never drawn again: it keeps its
      value to the end of the loop. */
  lemma {:induction false} RaisedPartsStay(min: int, max: int, s: SplitState, draws: seq<nat>)
    requires min <= max
    ensures var r := SplitLoop(min, max, s, draws);
      r.Some? ==>
        && |r.value.parts| == |s.parts|
        && forall j :: 0 <= j < |s.parts| && s.parts[j] != min ==> r.value.parts[j] == s.parts[j]
    decreases |draws|
  {
    if s.remaining > 0 && |draws| > 0 {
      var i := Below(draws[0], |s.parts|);
      if i < |s.parts| && s.parts[i] == min {
        if |draws| >= 2 {
          var v := min + Below(draws[1], max - min);
          RaisedPartsStay(min, max, SplitState(s.parts[i := v], s.remaining - v, s.handedOut + [v]), draws[2..]);
        }
      } else {
        RaisedPartsStay(min, max, s, draws[1..]);
      }
    }
  }

  /** Once no part is left at `min` while time remains, no index is ever
      eligible again: the loop spins for as long as it is fed draws. */
  lemma {:induction false} StuckLoopNeverEnds(min: int, max: int, s: SplitState, draws: seq<nat>)
    requires min <= max
    requires s.remaining > 0
    requires forall j :: 0 <= j < |s.parts| ==> s.parts[j] != min
    ensures SplitLoop(min, max, s, draws) == None
    decreases |draws|
  {
    if |draws| > 0 {
      StuckLoopNeverEnds(min, max, s, draws[1..]);
    }
  }

  /** With two parts in `[2, 5)` and 20 seconds to split, raising both parts
      to 4 leaves 8 seconds that no index can take: whatever draws follow,
      the loop does not end. */
  lemma TwoRaisedPartsDiverge(rest: seq<nat>)
    ensures Split(20, 2, 2, 5, [0, 2, 1, 2] + rest) == None
  {
    var draws: seq<nat> := [0, 2, 1, 2] + rest;
    var s0 := SplitState([2, 2], 16, []);
    assert InitialSplit(20, 2, 2) == s0;
    assert Below(0, 2) == 0 && Below(2, 3) == 2 && Below(1, 2) == 1;
    var s1 := SplitState([4, 2], 12, [4]);
    assert s0.parts[0 := 4] == [4, 2];
    var s2 := SplitState([4, 4], 8, [4, 4]);
    assert s1.parts[1 := 4] == [4, 4];
    assert draws[2..] == [1, 2] + rest;
    assert ([1, 2] + rest)[2..] == rest;
    assert ([1, 2] + rest)[0] == 1 && ([1, 2] + rest)[1] == 2;
    assert draws[0] == 0 && draws[1] == 2;
    assert [] + [4] == [4] && [4] + [4] == [4, 4];
    assert SplitLoop(2, 5, s1, [1, 2] + rest) == SplitLoop(2, 5, s2, rest);
    assert SplitLoop(2, 5, s0, draws) == SplitLoop(2, 5, s1, [1, 2] + rest);
    StuckLoopNeverEnds(2, 5, s2, rest);
  }

  /** The parts need not add up to `total`: splitting 5 seconds into one part
      in `[2, 5)` first draws 2 (which leaves the part eligible) and then 3,
      ending with the single part 3. */
  lemma SplitCanUndershoot()
    ensures Split(5, 1, 2, 5, [0, 0, 0, 1]) == Some([3])
  {
    var s0 := SplitState([2], 3, []);
    assert InitialSplit(5, 1, 2) == s0;
    assert Below(0, 1) == 0 && Below(0, 3) == 0 && Below(1, 3) == 1;
    var draws: seq<nat> := [0, 0, 0, 1];
    var s1 := SplitState([2], 1, [2]);
    assert s0.parts[0 := 2] == [2];
    assert draws[2..] == [0, 1];
    assert draws[0] == 0 && draws[1] == 0;
    assert SplitState(s0.parts[0 := 2], s0.remaining - 2, s0.handedOut + [2]) == s1;
    assert SplitLoop(2, 5, s0, draws) == SplitLoop(2, 5, s1, [0, 1]);
    assert s1.parts[0 := 3] == [3];
    assert [] + [2] == [2] && [2] + [3] == [2, 3];
    assert SplitLoop(2, 5, s1, [0, 1]) == Some(SplitState([3], -2, [2, 3]));
  }
}
