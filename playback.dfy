/**
 * The playback rule of AnimationInstance.update in
 * gemstone/animation_manager.py, stated on the frame durations alone: from
 * frame `cur` with `el` milliseconds accumulated, keep moving to the next
 * frame while the accumulated time covers the current frame's duration,
 * wrapping to the first frame when the animation loops and stopping on the
 * last frame when it does not.
 */
module Playback {

  /** The playback state an instance keeps: frame index, accumulated time, and whether it still plays. */
  datatype Clock = Clock(current: int, elapsed: int, playing: bool)

  predicate AllPositive(durs: seq<int>)
  {
    forall i :: 0 <= i < |durs| ==> durs[i] > 0
  }

  function Sum(durs: seq<int>): int
  {
    if durs == [] then 0 else durs[0] + Sum(durs[1..])
  }

  /**
   * Where the update loop stops.  A looping animation needs positive
   * durations, or the loop would never end; one that does not loop stops at
   * its last frame, keeping whatever time is left after the last subtraction.
   */
  function Play(durs: seq<int>, loop: bool, cur: int, el: int): (r: Clock)
    requires 0 <= cur < |durs|
    requires loop ==> AllPositive(durs)
    ensures 0 <= r.current < |durs|
    ensures r.playing ==> r.elapsed < durs[r.current]
    ensures !r.playing ==> !loop && r.current == |durs| - 1
    ensures loop ==> r.playing
    decreases if loop then el else |durs| - cur
  {
    if el < durs[cur] then
      Clock(cur, el, true)
    else if cur + 1 >= |durs| then
      if loop then Play(durs, loop, 0, el - durs[cur]) else Clock(|durs| - 1, el - durs[cur], false)
    else
      Play(durs, loop, cur + 1, el - durs[cur])
  }

  /** Time that does not reach the end of the current frame changes only the accumulator. */
  lemma PlayWithinFrame(durs: seq<int>, loop: bool, cur: int, el: int)
    requires 0 <= cur < |durs| && (loop ==> AllPositive(durs))
    requires el < durs[cur]
    ensures Play(durs, loop, cur, el) == Clock(cur, el, true)
  {
  }

  /** Durations [100, 50], looping: 120 ms from the start lands 20 ms into the second frame, 40 ms more wraps to 10 ms into the first. */
  lemma TwoFrameLoop()
    ensures Play([100, 50], true, 0, 0 + 120) == Clock(1, 20, true)
    ensures Play([100, 50], true, 1, 20 + 40) == Clock(0, 10, true)
  {
  }

  /** Without looping, running past the last frame stops on it with the remainder kept. */
  lemma NonLoopingStops(durs: seq<int>, el: int)
    requires |durs| > 0 && el >= durs[|durs| - 1]
    ensures Play(durs, false, |durs| - 1, el) == Clock(|durs| - 1, el - durs[|durs| - 1], false)
  {
  }

  /**
   * A looping animation is periodic: from any frame, an accumulator holding
   * the rest of the cycle plus `el` ends where `el` ends from the first frame.
   */
  lemma {:induction false} PlayRestOfCycle(durs: seq<int>, cur: int, el: int)
    requires 0 <= cur < |durs| && AllPositive(durs) && el >= 0
    ensures Play(durs, true, cur, el + Sum(durs[cur..])) == Play(durs, true, 0, el)
    decreases |durs| - cur
  {
    SumSplit(durs[cur..]);
    SumNonNegative(durs[cur + 1..]);
    assert durs[cur..][1..] == durs[cur + 1..];
    if cur + 1 < |durs| {
      PlayRestOfCycle(durs, cur + 1, el);
    } else {
      assert durs[cur + 1..] == [];
    }
  }

  /** Adding a whole cycle of time to a looping animation at its first frame changes nothing. */
  lemma PlayFullCycle(durs: seq<int>, el: int)
    requires |durs| > 0 && AllPositive(durs) && el >= 0
    ensures Play(durs, true, 0, el + Sum(durs)) == Play(durs, true, 0, el)
  {
    assert durs[0..] == durs;
    PlayRestOfCycle(durs, 0, el);
  }

  /**
   * Without looping, from any frame: time covering the rest of the
   * animation stops it on the last frame with the surplus kept, and less
   * time leaves it playing.
   */
  lemma {:induction false} NonLoopingStopsAfterRest(durs: seq<int>, cur: int, el: int)
    requires 0 <= cur < |durs| && AllPositive(durs)
    ensures el >= Sum(durs[cur..]) ==> Play(durs, false, cur, el) == Clock(|durs| - 1, el - Sum(durs[cur..]), false)
    ensures el < Sum(durs[cur..]) ==> Play(durs, false, cur, el).playing
    decreases |durs| - cur
  {
    SumSplit(durs[cur..]);
    SumNonNegative(durs[cur + 1..]);
    assert durs[cur..][1..] == durs[cur + 1..];
    if cur + 1 < |durs| {
      NonLoopingStopsAfterRest(durs, cur + 1, el - durs[cur]);
    } else {
      assert durs[cur + 1..] == [];
    }
  }

  /** Any whole number of cycles added to a looping animation at its first frame changes nothing. */
  lemma {:induction false} PlayCycles(durs: seq<int>, k: nat, el: int)
    requires |durs| > 0 && AllPositive(durs) && el >= 0
    ensures Play(durs, true, 0, el + k * Sum(durs)) == Play(durs, true, 0, el)
  {
    if k > 0 {
      SumNonNegative(durs);
      var before := el + (k - 1) * Sum(durs);
      assert el + k * Sum(durs) == before + Sum(durs);
      assert before >= 0;
      PlayFullCycle(durs, before);
      PlayCycles(durs, k - 1, el);
    }
  }

  lemma SumSplit(durs: seq<int>)
    requires durs != []
    ensures Sum(durs) == durs[0] + Sum(durs[1..])
  {
  }

  lemma {:induction false} SumNonNegative(durs: seq<int>)
    requires AllPositive(durs)
    ensures Sum(durs) >= 0
  {
    if durs != [] {
      SumNonNegative(durs[1..]);
    }
  }
}
