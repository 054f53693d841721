/** Gapless records of the states a disk went through. */
module Trails {

  function StateBefore<D>(start: D, trail: seq<D>, i: nat): D
    requires i <= |trail|
  {
    if i == 0 then start else trail[i - 1]
  }

  /** Every state follows from the one before by a single step, and the last is where the disk is now. */
  ghost predicate Recorded<D(!new)>(step: (D, D) -> bool, start: D, trail: seq<D>, now: D) {
    && (forall i :: 0 <= i < |trail| ==> step(StateBefore(start, trail, i), trail[i]))
    && now == StateBefore(start, trail, |trail|)
  }

  lemma RecordStep<D(!new)>(step: (D, D) -> bool, start: D, trail: seq<D>, now: D, next: D)
    requires Recorded(step, start, trail, now) && step(now, next)
    ensures Recorded(step, start, trail + [next], next)
  {
    var longer := trail + [next];
    forall i | 0 <= i < |longer|
      ensures step(StateBefore(start, longer, i), longer[i])
    {
      assert StateBefore(start, longer, i) == StateBefore(start, trail, i);
      assert i < |trail| ==> step(StateBefore(start, trail, i), trail[i]);
    }
  }

  /** The trail went through d at index `from` or later. */
  ghost predicate Passed<D(!new)>(trail: seq<D>, from: nat, d: D) {
    exists i :: from <= i < |trail| && trail[i] == d
  }

  /** Once the trail has grown, the present state is on its new part. */
  lemma NowPassed<D(!new)>(step: (D, D) -> bool, start: D, trail: seq<D>, now: D, from: nat)
    requires Recorded(step, start, trail, now) && from < |trail|
    ensures Passed(trail, from, now)
  {
  }

  lemma StillPassed<D(!new)>(trail: seq<D>, longer: seq<D>, from: nat, d: D)
    requires trail <= longer && Passed(trail, from, d)
    ensures Passed(longer, from, d)
  {
  }

  lemma RecordNothing<D(!new)>(step: (D, D) -> bool, start: D)
    ensures Recorded(step, start, [], start)
  {
  }
}
