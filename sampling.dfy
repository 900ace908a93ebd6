/** The sampling rule of `run_at_temp`: of the measurement updates k in
    [0, totSteps), the lattice is sampled (a frame for the animation, or a cluster
    count) at those with `k % (totSteps / budget) == 0`. */
module Sampling {
  import opened Arith

  /** The rule divides by `totSteps / budget` inside the loop, so it is defined
      when the loop is empty or that quotient is nonzero. */
  predicate RuleDefined(totSteps: nat, budget: nat)
  {
    totSteps == 0 || 1 <= budget <= totSteps
  }

  /** The sampled k in [0, totSteps) for the stride `d`, in the order the loop meets them. */
  function SampleSteps(totSteps: nat, d: nat): (r: seq<nat>)
    requires d >= 1
    ensures |r| <= totSteps
  {
    if totSteps == 0 then []
    else SampleSteps(totSteps - 1, d) + (if Multiple(totSteps - 1, d) then [totSteps - 1] else [])
  }

  /** `k % d == 0`, by repeated subtraction. */
  predicate Multiple(k: nat, d: nat)
    requires d >= 1
    decreases k
  {
    if k < d then k == 0 else Multiple(k - d, d)
  }

  lemma {:induction false} MultipleIff(k: nat, d: nat)
    requires d >= 1
    decreases k
    ensures Multiple(k, d) <==> k % d == 0
  {
    if k >= d {
      MultipleIff(k - d, d);
      var q, r := (k - d) / d, (k - d) % d;
      assert k == (q + 1) * d + r by { Distribute(q, 1, d); }
      DivModUnique(k, d, q + 1, r);
    } else {
      DivModUnique(k, d, 0, k);
    }
  }

  /** The rule's stride for a budget; only meaningful where the rule is defined. */
  function Stride(totSteps: nat, budget: nat): (d: nat)
    requires totSteps > 0 && RuleDefined(totSteps, budget)
    ensures 1 <= d <= totSteps
    ensures d * budget <= totSteps < (d + 1) * budget
  {
    totSteps / budget
  }

  /** The division in the loop is by zero exactly when the rule is not defined. */
  lemma RuleDefinedIff(totSteps: nat, budget: nat)
    requires totSteps > 0
    ensures RuleDefined(totSteps, budget) <==> budget != 0 && totSteps / budget != 0
  {
    if budget != 0 && budget > totSteps {
      assert totSteps / budget == 0;
    }
    if budget != 0 && budget <= totSteps {
      DivAtLeastOne(totSteps, budget);
    }
  }

  lemma DivAtLeastOne(a: nat, b: nat)
    requires 1 <= b <= a
    ensures a / b >= 1
  {
  }

  /** k is sampled exactly when it lies in the loop's range and is a multiple of the stride. */
  lemma {:induction false} SampleStepsMembers(totSteps: nat, d: nat, k: nat)
    requires d >= 1
    ensures k in SampleSteps(totSteps, d) <==> k < totSteps && k % d == 0
  {
    if totSteps > 0 {
      SampleStepsMembers(totSteps - 1, d, k);
      MultipleIff(totSteps - 1, d);
    }
  }

  /** The samples are taken in strictly increasing order. */
  lemma {:induction false} SampleStepsIncreasing(totSteps: nat, d: nat)
    requires d >= 1
    ensures forall i, j :: 0 <= i < j < |SampleSteps(totSteps, d)| ==>
      SampleSteps(totSteps, d)[i] < SampleSteps(totSteps, d)[j]
  {
    if totSteps > 0 {
      SampleStepsIncreasing(totSteps - 1, d);
      var s := SampleSteps(totSteps - 1, d);
      forall i | 0 <= i < |s| ensures s[i] < totSteps - 1 {
        SampleStepsMembers(totSteps - 1, d, s[i]);
      }
    }
  }

  /** Adding one more k adds a sample exactly when k is a multiple of d. */
  lemma CeilStep(t: nat, d: nat)
    requires d >= 1
    ensures (t + d) / d == (t + d - 1) / d + (if t % d == 0 then 1 else 0)
  {
    var q, r := t / d, t % d;
    assert t == q * d + r;
    if r == 0 {
      DivModUnique(t + d, d, q + 1, 0);
      DivModUnique(t + d - 1, d, q, d - 1);
    } else {
      DivModUnique(t + d, d, q + 1, r);
      DivModUnique(t + d - 1, d, q + 1, r - 1);
    }
  }

  /** There are ceil(totSteps / d) samples. */
  lemma {:induction false} SampleCount(totSteps: nat, d: nat)
    requires d >= 1
    ensures |SampleSteps(totSteps, d)| == (totSteps + d - 1) / d
  {
    if totSteps == 0 {
      DivModUnique(d - 1, d, 0, d - 1);
    } else {
      SampleCount(totSteps - 1, d);
      CeilStep(totSteps - 1, d);
      MultipleIff(totSteps - 1, d);
    }
  }

  /** With the stride derived from a budget, at least `budget` and fewer than
      `2 * budget` samples are taken. */
  lemma BudgetBounds(totSteps: nat, budget: nat)
    requires totSteps > 0 && RuleDefined(totSteps, budget)
    ensures budget <= |SampleSteps(totSteps, Stride(totSteps, budget))| < 2 * budget
  {
    var d := Stride(totSteps, budget);
    SampleCount(totSteps, d);
    var n := (totSteps + d - 1) / d;
    var rem := (totSteps + d - 1) % d;
    CeilAtLeast(totSteps, d, budget, n, rem);
    CeilBelow(totSteps, d, budget, n, rem);
  }

  lemma CeilAtLeast(t: int, d: nat, b: nat, n: int, rem: int)
    requires d >= 1 && d * b <= t && t + d - 1 == n * d + rem && 0 <= rem < d
    ensures n >= b
  {
    if n < b {
      MulLe(n + 1, b, d);
      Distribute(n, 1, d);
      assert false;
    }
  }

  lemma CeilBelow(t: int, d: nat, b: nat, n: int, rem: int)
    requires d >= 1 && b >= 1 && t < (d + 1) * b && t + d - 1 == n * d + rem && 0 <= rem < d
    ensures n < 2 * b
  {
    if n >= 2 * b {
      MulLe(2 * b, n, d);
      Distribute(d, 1, b);
      Distribute(b, b, d);
      assert b * d + b * d < d * b + b + d - 1;
      MulLe(1, b, d);
      MulLe(1, d, b - 1);
      Distribute(b - 1, 1, d);
      assert false;
    }
  }

}
