/** The stroke colour gradient: a step counter `colorIndex` clamped to 0..TotalSteps and
    the lerp factor it yields between the start and end colours. Both versions of the
    program run the same GradientColor code; the arithmetic lives here once. */
module Gradient {

  const TotalSteps: int := 200

  function Min(a: real, b: real): real
  {
    if a < b then a else b
  }

  /** Math.min(colorIndex / totalSteps, 1): the lerp factor GradientColor reads before
      it advances the counter. */
  function LerpFactor(colorIndex: int): (f: real)
    ensures 0 <= colorIndex ==> 0.0 <= f <= 1.0
    ensures f == 1.0 <==> colorIndex >= TotalSteps
  {
    Min(colorIndex as real / TotalSteps as real, 1.0)
  }

  /** colorIndex++ followed by the clamp to totalSteps. */
  function Advance(colorIndex: int): (next: int)
    ensures 0 <= colorIndex <= TotalSteps ==> colorIndex <= next <= TotalSteps && 0 < next
    ensures next == TotalSteps ==> colorIndex >= TotalSteps - 1
  {
    var i := colorIndex + 1;
    if i > TotalSteps then TotalSteps else i
  }

  /** The counter after `calls` calls of GradientColor since it was last reset to 0. */
  function IndexAfter(calls: nat): (i: int)
    ensures 0 <= i <= TotalSteps
  {
    if calls == 0 then 0 else Advance(IndexAfter(calls - 1))
  }

  /** The factor of the call with 0-based position `k` since the last reset, that is,
      of the k-th sphere of a stroke. */
  function StrokeFactor(k: nat): real
  {
    LerpFactor(IndexAfter(k))
  }

  /** The counter counts calls and saturates at TotalSteps. */
  lemma {:induction false} IndexAfterCounts(calls: nat)
    ensures IndexAfter(calls) == if calls < TotalSteps then calls else TotalSteps
  {
    if calls > 0 {
      IndexAfterCounts(calls - 1);
    }
  }

  /** Successive calls after a reset yield 0, 1/200, 2/200, ..., 199/200 and then 1
      for ever. */
  lemma StrokeFactorValue(k: nat)
    ensures StrokeFactor(k) == if k < TotalSteps then k as real / TotalSteps as real else 1.0
  {
    IndexAfterCounts(k);
  }

  /** Each call's factor exceeds the previous one's by 1/200 until it reaches 1, and
      stays there. */
  lemma StrokeFactorStep(k: nat)
    ensures StrokeFactor(k + 1) - StrokeFactor(k) == if k < TotalSteps then 1.0 / TotalSteps as real else 0.0
  {
    StrokeFactorValue(k);
    StrokeFactorValue(k + 1);
  }

  /** Along a stroke the factor never decreases. */
  lemma StrokeFactorMonotone(j: nat, k: nat)
    requires j <= k
    ensures 0.0 <= StrokeFactor(j) <= StrokeFactor(k) <= 1.0
  {
    StrokeFactorValue(j);
    StrokeFactorValue(k);
  }

  /** The factor is 1 exactly from the 201st call (position 200) onwards. */
  lemma StrokeFactorSaturates(k: nat)
    ensures StrokeFactor(k) == 1.0 <==> k >= TotalSteps
  {
    IndexAfterCounts(k);
  }
}
