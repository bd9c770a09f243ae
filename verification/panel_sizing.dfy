/**
 * The sibling-size arithmetic shared by every generation of the id-keyed
 * panel tree: how `addChild` makes room for a new child, and how
 * `redistributeChildren` refills the space left after a change.
 *
 * The arithmetic is stated on the sequence of sibling percents; the stores
 * apply it child by child. A `Rule` is what each adjustable sibling's percent
 * becomes: a constant (the even split) or a multiple (the proportional
 * rescale).
 */
module PanelSizing {
  import opened Wrappers
  import opened Percents

  datatype Rule = Const(v: real) | Times(k: real)

  function Apply(rule: Rule, x: real): real
  {
    match rule
    case Const(v) => v
    case Times(k) => x * k
  }

  function Sum(ps: seq<real>): real
  {
    if |ps| == 0 then 0.0 else ps[0] + Sum(ps[1..])
  }

  predicate AllPercents(ps: seq<real>)
  {
    forall i | 0 <= i < |ps| :: IsPercent(ps[i])
  }

  lemma AllPercentsCons(ps: seq<real>)
    requires |ps| > 0
    ensures AllPercents(ps) <==> IsPercent(ps[0]) && AllPercents(ps[1..])
  {
    if IsPercent(ps[0]) && AllPercents(ps[1..]) {
      forall i | 0 <= i < |ps| ensures IsPercent(ps[i]) {
        if i > 0 { assert ps[i] == ps[1..][i - 1]; }
      }
    }
  }

  /** `Order.clamp` to [0, 1]. */
  function Clamp01(x: real): (r: Percent)
    ensures IsPercent(x) ==> r == x
    ensures x < 0.0 ==> r == 0.0
    ensures x > 1.0 ==> r == 1.0
  {
    if x < 0.0 then 0.0 else if x > 1.0 then 1.0 else x
  }

  function MapRule(ps: seq<real>, rule: Rule): (r: seq<real>)
    ensures |r| == |ps|
    ensures forall i | 0 <= i < |ps| :: r[i] == Apply(rule, ps[i])
  {
    seq(|ps|, i requires 0 <= i < |ps| => Apply(rule, ps[i]))
  }

  /** The children whose mask entry is `b`, summed. */
  function SumWhere(ps: seq<real>, mask: seq<bool>, b: bool): real
    requires |mask| == |ps|
  {
    if |ps| == 0 then 0.0
    else (if mask[0] == b then ps[0] else 0.0) + SumWhere(ps[1..], mask[1..], b)
  }

  function Count(mask: seq<bool>, b: bool): nat
  {
    if |mask| == 0 then 0 else (if mask[0] == b then 1 else 0) + Count(mask[1..], b)
  }

  /** Excluded (fixed) children keep their percent; the rest follow `rule`. */
  function ApplyWhere(ps: seq<real>, fixed: seq<bool>, rule: Rule): (r: seq<real>)
    requires |fixed| == |ps|
    ensures |r| == |ps|
    ensures forall i | 0 <= i < |ps| :: r[i] == (if fixed[i] then ps[i] else Apply(rule, ps[i]))
  {
    seq(|ps|, i requires 0 <= i < |ps| => if fixed[i] then ps[i] else Apply(rule, ps[i]))
  }

  /**
   * `addChild`: with `n` existing siblings whose percents are `ps`, the new
   * child asking for `p` gets `pNew`; the siblings follow `rule`.
   * No siblings: the new child gets the whole parent. Siblings summing to
   * nothing: they share 1 - pNew evenly. Otherwise: they are rescaled by
   * (1 - pNew) / sum, keeping their ratios.
   */
  function AddChildPlan(ps: seq<real>, p: real): (plan: (Rule, Percent))
  {
    var n := |ps|;
    var sum := Sum(ps);
    var pNew := Clamp01(p / (n + 1) as real);
    if sum <= 0.0 then
      (if n == 0 then (Times(1.0), 1.0) else (Const((1.0 - pNew) / n as real), pNew))
    else (Times((1.0 - pNew) / sum), pNew)
  }

  /**
   * `redistributeChildren`: none when no child is adjustable (the call is a
   * no-op); otherwise the rule for the adjustable children, which fills
   * `1 - fixedSum` evenly when they sum to nothing and proportionally
   * otherwise.
   */
  function RedistributePlan(ps: seq<real>, fixed: seq<bool>): (plan: Option<Rule>)
    requires |fixed| == |ps|
  {
    var adjustable := Count(fixed, false);
    if adjustable == 0 then None
    else
      var remaining := 1.0 - SumWhere(ps, fixed, true);
      var adjustableSum := SumWhere(ps, fixed, false);
      if adjustableSum <= 0.0 then Some(Const(remaining / adjustable as real))
      else Some(Times(remaining / adjustableSum))
  }

  /** `k` rescales a total of `s` to `budget`, keeping the sign of the budget. */
  predicate ScalesTo(k: real, s: real, budget: real)
  {
    k * s == budget && (budget >= 0.0 <==> k >= 0.0)
  }

  /** `v` is one of `n` even shares of `budget`, so in [0, budget] when the budget is not negative. */
  predicate SharesOut(v: real, n: real, budget: real)
  {
    v * n == budget && (budget >= 0.0 ==> 0.0 <= v <= budget) && (budget < 0.0 ==> v < 0.0)
  }

  // ---------------------------------------------------------------------
  // Facts about sums.

  lemma {:induction false} SumAppend(a: seq<real>, b: seq<real>)
    ensures Sum(a + b) == Sum(a) + Sum(b)
    decreases |a|
  {
    if |a| == 0 {
      assert a + b == b;
    } else {
      assert (a + b)[1..] == a[1..] + b;
      SumAppend(a[1..], b);
    }
  }

  lemma {:induction false} SumOfPercents(ps: seq<real>)
    requires AllPercents(ps)
    ensures Sum(ps) >= 0.0
    ensures forall i | 0 <= i < |ps| :: ps[i] <= Sum(ps)
    ensures Sum(ps) <= 0.0 ==> forall i | 0 <= i < |ps| :: ps[i] == 0.0
    decreases |ps|
  {
    if |ps| > 0 {
      SumOfPercents(ps[1..]);
      forall i | 1 <= i < |ps|
        ensures ps[i] <= Sum(ps)
      {
        assert ps[i] == ps[1..][i - 1];
      }
    }
  }

  lemma {:induction false} SumMapRule(ps: seq<real>, rule: Rule)
    ensures rule.Times? ==> Sum(MapRule(ps, rule)) == rule.k * Sum(ps)
    ensures rule.Const? ==> Sum(MapRule(ps, rule)) == |ps| as real * rule.v
    decreases |ps|
  {
    if |ps| > 0 {
      assert MapRule(ps, rule)[1..] == MapRule(ps[1..], rule);
      SumMapRule(ps[1..], rule);
    }
  }

  /** A list of equal shares sums to their count times the share. */
  lemma {:induction false} SumConstant(ps: seq<real>, v: real)
    requires forall i | 0 <= i < |ps| :: ps[i] == v
    ensures Sum(ps) == |ps| as real * v
    decreases |ps|
  {
    if |ps| > 0 {
      SumConstant(ps[1..], v);
    }
  }

  lemma {:induction false} SumWhereSplits(ps: seq<real>, mask: seq<bool>)
    requires |mask| == |ps|
    ensures Sum(ps) == SumWhere(ps, mask, true) + SumWhere(ps, mask, false)
    decreases |ps|
  {
    if |ps| > 0 {
      SumWhereSplits(ps[1..], mask[1..]);
    }
  }

  lemma SumWhereApplied(ps: seq<real>, fixed: seq<bool>, rule: Rule)
    requires |fixed| == |ps|
    ensures SumWhere(ApplyWhere(ps, fixed, rule), fixed, true) == SumWhere(ps, fixed, true)
    ensures rule.Times? ==>
      SumWhere(ApplyWhere(ps, fixed, rule), fixed, false) == rule.k * SumWhere(ps, fixed, false)
    ensures rule.Const? ==>
      SumWhere(ApplyWhere(ps, fixed, rule), fixed, false) == Count(fixed, false) as real * rule.v
  {
    SumWhereAppliedFixed(ps, fixed, rule);
    SumWhereAppliedFree(ps, fixed, rule);
  }

  /** The fixed children keep their sum. */
  lemma {:induction false} SumWhereAppliedFixed(ps: seq<real>, fixed: seq<bool>, rule: Rule)
    requires |fixed| == |ps|
    ensures SumWhere(ApplyWhere(ps, fixed, rule), fixed, true) == SumWhere(ps, fixed, true)
    decreases |ps|
  {
    if |ps| > 0 {
      assert ApplyWhere(ps, fixed, rule)[1..] == ApplyWhere(ps[1..], fixed[1..], rule);
      SumWhereAppliedFixed(ps[1..], fixed[1..], rule);
    }
  }

  /** The free children's sum follows the rule. */
  lemma SumWhereAppliedFree(ps: seq<real>, fixed: seq<bool>, rule: Rule)
    requires |fixed| == |ps|
    ensures rule.Times? ==>
      SumWhere(ApplyWhere(ps, fixed, rule), fixed, false) == rule.k * SumWhere(ps, fixed, false)
    ensures rule.Const? ==>
      SumWhere(ApplyWhere(ps, fixed, rule), fixed, false) == Count(fixed, false) as real * rule.v
  {
    if rule.Times? {
      SumWhereAppliedTimes(ps, fixed, rule);
    } else {
      SumWhereAppliedConst(ps, fixed, rule);
    }
  }

  /** Rescaling the free children rescales their sum. */
  lemma {:induction false} SumWhereAppliedTimes(ps: seq<real>, fixed: seq<bool>, rule: Rule)
    requires |fixed| == |ps| && rule.Times?
    ensures SumWhere(ApplyWhere(ps, fixed, rule), fixed, false) == rule.k * SumWhere(ps, fixed, false)
    decreases |ps|
  {
    if |ps| > 0 {
      assert ApplyWhere(ps, fixed, rule)[1..] == ApplyWhere(ps[1..], fixed[1..], rule);
      SumWhereAppliedTimes(ps[1..], fixed[1..], rule);
    }
  }

  /** Giving the free children one share makes their sum the share times their count. */
  lemma {:induction false} SumWhereAppliedConst(ps: seq<real>, fixed: seq<bool>, rule: Rule)
    requires |fixed| == |ps| && rule.Const?
    ensures SumWhere(ApplyWhere(ps, fixed, rule), fixed, false) == Count(fixed, false) as real * rule.v
    decreases |ps|
  {
    if |ps| > 0 {
      assert ApplyWhere(ps, fixed, rule)[1..] == ApplyWhere(ps[1..], fixed[1..], rule);
      SumWhereAppliedConst(ps[1..], fixed[1..], rule);
    }
  }

  lemma {:induction false} SumWhereOfPercents(ps: seq<real>, mask: seq<bool>, b: bool)
    requires |mask| == |ps| && AllPercents(ps)
    ensures SumWhere(ps, mask, b) >= 0.0
    ensures forall i | 0 <= i < |ps| && mask[i] == b :: ps[i] <= SumWhere(ps, mask, b)
    ensures SumWhere(ps, mask, b) > 0.0 ==> exists i | 0 <= i < |ps| :: mask[i] == b && ps[i] > 0.0
    decreases |ps|
  {
    if |ps| > 0 {
      SumWhereOfPercents(ps[1..], mask[1..], b);
      forall i | 1 <= i < |ps| && mask[i] == b
        ensures ps[i] <= SumWhere(ps, mask, b)
      {
        assert ps[i] == ps[1..][i - 1] && mask[i] == mask[1..][i - 1];
      }
      if SumWhere(ps, mask, b) > 0.0 && !(mask[0] == b && ps[0] > 0.0) {
        var j :| 0 <= j < |ps| - 1 && mask[1..][j] == b && ps[1..][j] > 0.0;
        assert mask[j + 1] == b && ps[j + 1] > 0.0;
      }
    }
  }

  lemma {:induction false} CountPositive(mask: seq<bool>, b: bool)
    ensures Count(mask, b) > 0 <==> exists i | 0 <= i < |mask| :: mask[i] == b
    decreases |mask|
  {
    if |mask| > 0 {
      CountPositive(mask[1..], b);
      if exists i | 0 <= i < |mask| :: mask[i] == b {
        var i :| 0 <= i < |mask| && mask[i] == b;
        if i > 0 { assert mask[1..][i - 1] == b; }
      }
      if exists i | 0 <= i < |mask| - 1 :: mask[1..][i] == b {
        var i :| 0 <= i < |mask| - 1 && mask[1..][i] == b;
        assert mask[i + 1] == b;
      }
    }
  }

  // ---------------------------------------------------------------------
  // Arithmetic steps, kept apart so that the solver sees them in isolation.

  lemma MulDivCancel(a: real, b: real)
    requires b != 0.0
    ensures b * (a / b) == a
    ensures (a / b) * b == a
  {
  }

  lemma EvenShareInRange(budget: real, n: real)
    requires n >= 1.0 && 0.0 <= budget
    ensures 0.0 <= budget / n <= budget
  {
    MulDivCancel(budget, n);
  }

  lemma NegativeShare(budget: real, n: real)
    requires n > 0.0 && budget < 0.0
    ensures budget / n < 0.0
  {
    MulDivCancel(budget, n);
  }

  lemma ScaleFor(budget: real, s: real)
    requires s > 0.0
    ensures ScalesTo(budget / s, s, budget)
  {
    MulDivCancel(budget, s);
    if budget < 0.0 {
      NegativeShare(budget, s);
    }
  }

  lemma EvenShareFor(budget: real, n: real)
    requires n >= 1.0
    ensures SharesOut(budget / n, n, budget)
  {
    MulDivCancel(budget, n);
    if budget >= 0.0 {
      EvenShareInRange(budget, n);
    } else {
      NegativeShare(budget, n);
    }
  }

  lemma ProductBound(x: real, k: real, s: real)
    requires 0.0 <= x <= s && k >= 0.0
    ensures 0.0 <= x * k <= k * s
  {
  }

  lemma NegativeProduct(x: real, k: real)
    requires x > 0.0 && k < 0.0
    ensures x * k < 0.0
  {
  }

  lemma RatioStep(x: real, k: real, s: real, budget: real)
    requires k * s == budget
    ensures x * k * s == x * budget
  {
    assert x * k * s == x * (k * s);
  }

  /** Rescaling by a non-negative factor that keeps the largest share in range. */
  lemma TimesInRange(ps: seq<real>, k: real, s: real)
    requires AllPercents(ps) && k >= 0.0 && k * s <= 1.0
    requires forall i | 0 <= i < |ps| :: ps[i] <= s
    ensures AllPercents(MapRule(ps, Times(k)))
  {
    forall i | 0 <= i < |ps|
      ensures IsPercent(MapRule(ps, Times(k))[i])
    {
      ProductBound(ps[i], k, s);
    }
  }

  lemma TimesWhereInRange(ps: seq<real>, fixed: seq<bool>, k: real, s: real)
    requires |fixed| == |ps| && AllPercents(ps) && k >= 0.0 && k * s <= 1.0
    requires forall i | 0 <= i < |ps| && !fixed[i] :: ps[i] <= s
    ensures AllPercents(ApplyWhere(ps, fixed, Times(k)))
  {
    forall i | 0 <= i < |ps|
      ensures IsPercent(ApplyWhere(ps, fixed, Times(k))[i])
    {
      if !fixed[i] {
        ProductBound(ps[i], k, s);
      }
    }
  }

  lemma ConstWhereInRange(ps: seq<real>, fixed: seq<bool>, v: real)
    requires |fixed| == |ps| && AllPercents(ps) && IsPercent(v)
    ensures AllPercents(ApplyWhere(ps, fixed, Const(v)))
  {
  }

  lemma WhereOutOfRange(ps: seq<real>, fixed: seq<bool>, rule: Rule, i: nat)
    requires |fixed| == |ps| && i < |ps| && !fixed[i]
    requires rule.Const? ==> rule.v < 0.0
    requires rule.Times? ==> rule.k < 0.0 && ps[i] > 0.0
    ensures !AllPercents(ApplyWhere(ps, fixed, rule))
  {
    if rule.Times? {
      NegativeProduct(ps[i], rule.k);
    }
    assert !IsPercent(ApplyWhere(ps, fixed, rule)[i]);
  }

  /** The two non-trivial shapes of the `addChild` plan, stated without division. */
  lemma AddChildPlanShape(ps: seq<real>, p: real)
    ensures IsPercent(AddChildPlan(ps, p).1)
    ensures |ps| == 0 ==> AddChildPlan(ps, p) == (Times(1.0), 1.0)
    ensures |ps| > 0 && Sum(ps) <= 0.0 ==>
      && AddChildPlan(ps, p).0.Const?
      && AddChildPlan(ps, p).0.v * |ps| as real == 1.0 - AddChildPlan(ps, p).1
      && 0.0 <= AddChildPlan(ps, p).0.v <= 1.0
    ensures Sum(ps) > 0.0 ==>
      && AddChildPlan(ps, p).0.Times?
      && AddChildPlan(ps, p).0.k * Sum(ps) == 1.0 - AddChildPlan(ps, p).1
      && AddChildPlan(ps, p).0.k >= 0.0
  {
    var plan := AddChildPlan(ps, p);
    var n := |ps|;
    if n > 0 && Sum(ps) <= 0.0 {
      EvenShareInRange(1.0 - plan.1, n as real);
      MulDivCancel(1.0 - plan.1, n as real);
    }
    if Sum(ps) > 0.0 {
      MulDivCancel(1.0 - plan.1, Sum(ps));
    }
  }

  // ---------------------------------------------------------------------
  // The promises of the two plans.

  /**
   * After `addChild` the siblings plus the new child sum to exactly 1, and no
   * size written is out of range (so the `Percent` refinement never throws).
   */
  lemma AddChildPlanSumsToOne(ps: seq<real>, p: real)
    requires AllPercents(ps)
    ensures AllPercents(MapRule(ps, AddChildPlan(ps, p).0))
    ensures Sum(MapRule(ps, AddChildPlan(ps, p).0)) + AddChildPlan(ps, p).1 == 1.0
  {
    var plan := AddChildPlan(ps, p);
    AddChildPlanShape(ps, p);
    if |ps| == 0 {
      assert MapRule(ps, plan.0) == [];
    } else if Sum(ps) > 0.0 {
      RescaledSumsToOne(ps, plan.0.k, plan.1);
    } else {
      SharedSumsToOne(ps, plan.0.v, plan.1);
    }
  }

  /** Siblings rescaled to fill what the new child leaves sum with it to 1 and stay in range. */
  lemma RescaledSumsToOne(ps: seq<real>, k: real, pNew: real)
    requires AllPercents(ps) && Sum(ps) > 0.0 && k >= 0.0 && k * Sum(ps) == 1.0 - pNew
    requires IsPercent(pNew)
    ensures AllPercents(MapRule(ps, Times(k)))
    ensures Sum(MapRule(ps, Times(k))) + pNew == 1.0
  {
    SumOfPercents(ps);
    SumMapRule(ps, Times(k));
    TimesInRange(ps, k, Sum(ps));
  }

  /** Siblings given equal shares of what the new child leaves sum with it to 1 and stay in range. */
  lemma SharedSumsToOne(ps: seq<real>, v: real, pNew: real)
    requires AllPercents(ps) && 0.0 <= v <= 1.0 && v * |ps| as real == 1.0 - pNew
    ensures AllPercents(MapRule(ps, Const(v)))
    ensures Sum(MapRule(ps, Const(v))) + pNew == 1.0
  {
    SumMapRule(ps, Const(v));
  }

  /**
   * Existing children keep their ratios when the sum is positive: each one
   * is its old share of the old total, taken of what the new child leaves.
   */
  lemma AddChildPlanKeepsRatios(ps: seq<real>, p: real, i: nat)
    requires Sum(ps) > 0.0 && i < |ps|
    ensures ShareKept(MapRule(ps, AddChildPlan(ps, p).0)[i], 1.0 - AddChildPlan(ps, p).1, ps[i], Sum(ps))
  {
    AddChildTimes(ps, p);
    RescaledRatio(ps, AddChildPlan(ps, p), i);
  }

  /**
   * A size `now` out of `total` is the same share as `before` out of
   * `totalBefore`, stated without division.
   */
  predicate ShareKept(now: real, total: real, before: real, totalBefore: real)
  {
    now * totalBefore == before * total
  }

  /** A sibling rescaled by `k` keeps its share: its new size times the old total is its old size times the new one. */
  lemma RescaledRatio(ps: seq<real>, plan: (Rule, Percent), i: nat)
    requires i < |ps|
    ensures plan.0.Times? && plan.0.k * Sum(ps) == 1.0 - plan.1 ==>
      ShareKept(MapRule(ps, plan.0)[i], 1.0 - plan.1, ps[i], Sum(ps))
  {
    if plan.0.Times? && plan.0.k * Sum(ps) == 1.0 - plan.1 {
      assert MapRule(ps, plan.0)[i] == ps[i] * plan.0.k;
      RatioStep(ps[i], plan.0.k, Sum(ps), 1.0 - plan.1);
    }
  }

  /** With a positive sum the plan rescales the siblings into what the new child leaves. */
  lemma AddChildTimes(ps: seq<real>, p: real)
    requires Sum(ps) > 0.0
    ensures AddChildPlan(ps, p).0.Times?
    ensures AddChildPlan(ps, p).0.k * Sum(ps) == 1.0 - AddChildPlan(ps, p).1
  {
    MulDivCancel(1.0 - AddChildPlan(ps, p).1, Sum(ps));
  }

  /** The even-split shape of the redistribution plan, stated without division. */
  lemma RedistributeEvenShape(ps: seq<real>, fixed: seq<bool>)
    requires |fixed| == |ps| && Count(fixed, false) > 0
    requires SumWhere(ps, fixed, false) <= 0.0
    ensures RedistributePlan(ps, fixed).Some? && RedistributePlan(ps, fixed).value.Const?
    ensures SharesOut(RedistributePlan(ps, fixed).value.v, Count(fixed, false) as real, 1.0 - SumWhere(ps, fixed, true))
  {
    var remaining := 1.0 - SumWhere(ps, fixed, true);
    var c := Count(fixed, false) as real;
    assert RedistributePlan(ps, fixed) == Some(Const(remaining / c));
    EvenShareFor(remaining, c);
  }

  /** The proportional shape of the redistribution plan, stated without division. */
  lemma RedistributeScaleShape(ps: seq<real>, fixed: seq<bool>)
    requires |fixed| == |ps| && Count(fixed, false) > 0
    requires SumWhere(ps, fixed, false) > 0.0
    ensures RedistributePlan(ps, fixed).Some? && RedistributePlan(ps, fixed).value.Times?
    ensures ScalesTo(RedistributePlan(ps, fixed).value.k, SumWhere(ps, fixed, false), 1.0 - SumWhere(ps, fixed, true))
  {
    var remaining := 1.0 - SumWhere(ps, fixed, true);
    var adjustableSum := SumWhere(ps, fixed, false);
    assert RedistributePlan(ps, fixed) == Some(Times(remaining / adjustableSum));
    ScaleFor(remaining, adjustableSum);
  }

  /**
   * After `redistributeChildren` with at least one adjustable child, the
   * fixed children are untouched and all children sum to exactly 1.
   */
  lemma RedistributeSumsToOne(ps: seq<real>, fixed: seq<bool>)
    requires |fixed| == |ps|
    requires RedistributePlan(ps, fixed).Some?
    ensures Sum(ApplyWhere(ps, fixed, RedistributePlan(ps, fixed).value)) == 1.0
  {
    var rule := RedistributePlan(ps, fixed).value;
    var q := ApplyWhere(ps, fixed, rule);
    SumWhereSplits(q, fixed);
    SumWhereApplied(ps, fixed, rule);
    if SumWhere(ps, fixed, false) <= 0.0 {
      RedistributeEvenShape(ps, fixed);
    } else {
      RedistributeScaleShape(ps, fixed);
    }
  }

  /** The range argument for a redistribution rule, on abstract sums. */
  lemma RuleInRange(ps: seq<real>, fixed: seq<bool>, rule: Rule, fixedSum: real, adjustableSum: real)
    requires |fixed| == |ps| && AllPercents(ps)
    requires forall i | 0 <= i < |ps| && !fixed[i] :: ps[i] <= adjustableSum
    requires exists i | 0 <= i < |ps| :: !fixed[i]
    requires adjustableSum > 0.0 ==> exists i | 0 <= i < |ps| :: !fixed[i] && ps[i] > 0.0
    requires adjustableSum <= 0.0 ==> rule.Const? && SharesOut(rule.v, Count(fixed, false) as real, 1.0 - fixedSum)
    requires adjustableSum > 0.0 ==> rule.Times? && ScalesTo(rule.k, adjustableSum, 1.0 - fixedSum)
    requires fixedSum >= 0.0
    ensures AllPercents(ApplyWhere(ps, fixed, rule)) <==> fixedSum <= 1.0
  {
    if fixedSum <= 1.0 {
      if adjustableSum > 0.0 {
        TimesWhereInRange(ps, fixed, rule.k, adjustableSum);
      } else {
        ConstWhereInRange(ps, fixed, rule.v);
      }
    } else if adjustableSum <= 0.0 {
      var i :| 0 <= i < |ps| && !fixed[i];
      WhereOutOfRange(ps, fixed, rule, i);
    } else {
      var i :| 0 <= i < |ps| && !fixed[i] && ps[i] > 0.0;
      WhereOutOfRange(ps, fixed, rule, i);
    }
  }

  /**
   * The redistribution writes only valid percents exactly when the fixed
   * children do not already exceed the whole parent; otherwise the
   * `Percent` refinement throws on an adjustable child.
   */
  lemma RedistributeInRange(ps: seq<real>, fixed: seq<bool>)
    requires |fixed| == |ps| && AllPercents(ps)
    requires RedistributePlan(ps, fixed).Some?
    ensures AllPercents(ApplyWhere(ps, fixed, RedistributePlan(ps, fixed).value))
      <==> SumWhere(ps, fixed, true) <= 1.0
  {
    var rule := RedistributePlan(ps, fixed).value;
    var fixedSum := SumWhere(ps, fixed, true);
    var adjustableSum := SumWhere(ps, fixed, false);
    if adjustableSum <= 0.0 {
      RedistributeEvenShape(ps, fixed);
    } else {
      RedistributeScaleShape(ps, fixed);
    }
    SumWhereOfPercents(ps, fixed, true);
    SumWhereOfPercents(ps, fixed, false);
    CountPositive(fixed, false);
    RuleInRange(ps, fixed, rule, fixedSum, adjustableSum);
  }

  // ---------------------------------------------------------------------
  // The worked examples of the test suites.

  /**
   * Adding to an empty parent gives the child the whole parent; a second
   * child asking for all of it gets half and the first keeps half; a second
   * child asking for half gets a quarter and the first keeps three quarters.
   */
  lemma AddChildExamples()
    ensures AddChildPlan([], 1.0) == (Times(1.0), 1.0)
    ensures AddChildPlan([1.0], 1.0).1 == 0.5 && MapRule([1.0], AddChildPlan([1.0], 1.0).0) == [0.5]
    ensures AddChildPlan([1.0], 0.5).1 == 0.25 && MapRule([1.0], AddChildPlan([1.0], 0.5).0) == [0.75]
  {
    assert Sum([1.0]) == 1.0;
  }

  /**
   * Refilling after a delete: three quarters left alone grow to the whole
   * parent; one half and three tenths share the whole in the same ratio,
   * five eighths and three eighths.
   */
  lemma RedistributeExamples()
    ensures RedistributePlan([0.75], [false]) == Some(Times(1.0 / 0.75))
    ensures ApplyWhere([0.75], [false], Times(1.0 / 0.75)) == [1.0]
    ensures RedistributePlan([0.5, 0.3], [false, false]) == Some(Times(1.0 / 0.8))
    ensures ApplyWhere([0.5, 0.3], [false, false], Times(1.0 / 0.8)) == [0.625, 0.375]
  {
    assert Sum([0.75]) == 0.75;
    assert SumWhere([0.5, 0.3], [false, false], true) == 0.0;
    assert SumWhere([0.5, 0.3], [false, false], false) == 0.8;
    assert Count([false, false], false) == 2;
  }
}
