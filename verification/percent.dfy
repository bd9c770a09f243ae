/**
 * The `Percent` brand: a number in [0, 1] (ui/app/src/renderer/lib/Percent.ts,
 * and the same refinement repeated in every panel-tree generation).
 */
module Percents {
  import opened Wrappers

  predicate IsPercent(x: real) { 0.0 <= x <= 1.0 }

  /** A branded percent is the same number, only refined. */
  type Percent = x: real | IsPercent(x) witness 0.0

  /** `Percent(n)`: the refinement check; none stands for the thrown brand error. */
  function Make(n: real): (r: Option<Percent>)
    ensures r.Some? <==> 0.0 <= n <= 1.0
    ensures r.Some? ==> r.value == n
  {
    if IsPercent(n) then Some(n) else None
  }

  /** `Percent.from(n)`: a percentage given out of one hundred. */
  function From(n: real): (r: Option<Percent>)
    ensures r.Some? <==> 0.0 <= n <= 100.0
    ensures r.Some? ==> r.value * 100.0 == n
  {
    Make(n / 100.0)
  }

  /** Percent.from(25), the default sidebar size. */
  lemma FromTwentyFive()
    ensures From(25.0) == Some(0.25)
  {
  }

  /** Brand round trip: a valid number comes back unchanged, and from(100·p) is p. */
  lemma {:induction false} FromInvertsScaling(p: Percent)
    ensures Make(p) == Some(p)
    ensures From(p * 100.0) == Some(p)
  {
    assert p * 100.0 / 100.0 == p;
  }
}
