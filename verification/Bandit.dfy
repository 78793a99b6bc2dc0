/** The failure counter and the automatic cooldown of `BanditRepository.record_feedback`. */
module Bandit {
  import opened Common

  datatype Arm = Arm(trials: nat, successes: nat, failures: nat, cooldownUntil: Option<int>)

  /** One feedback: whether the call succeeded, and the deadline a cooldown set now would get. */
  datatype Feedback = Feedback(success: bool, deadline: int)

  const NEW_ARM := Arm(0, 0, 0, None)

  function Recorded(a: Arm, f: Feedback, threshold: int): Arm {
    var failures := if f.success then (if a.failures > 0 then a.failures - 1 else 0) else a.failures + 1;
    var cooldown := if !f.success && failures >= threshold then Some(f.deadline)
                    else if f.success then None else a.cooldownUntil;
    Arm(a.trials + 1, a.successes + (if f.success then 1 else 0), failures, cooldown)
  }

  class ArmState {
    var trials: nat
    var successes: nat
    var failures: nat
    var cooldownUntil: Option<int>

    ghost function Value(): Arm reads this { Arm(trials, successes, failures, cooldownUntil) }

    method RecordFeedback(f: Feedback, threshold: int)
      modifies this
      ensures Value() == Recorded(old(Value()), f, threshold)
    {
      trials := trials + 1;
      if f.success {
        successes := successes + 1;
        failures := if failures - 1 > 0 then failures - 1 else 0;
      } else {
        failures := failures + 1;
      }
      if !f.success && failures >= threshold {
        cooldownUntil := Some(f.deadline);
      } else if f.success {
        cooldownUntil := None;
      }
    }
  }

  /** The arm after a feedback history with one threshold and no manual lift. */
  function After(history: seq<Feedback>, threshold: int): Arm {
    if history == [] then NEW_ARM
    else Recorded(After(history[..|history| - 1], threshold), history[|history| - 1], threshold)
  }

  /** Failures minus successes. */
  function Excess(history: seq<Feedback>): int {
    if history == [] then 0
    else Excess(history[..|history| - 1]) + if history[|history| - 1].success then -1 else 1
  }

  /** How the excess of a suffix changes with one more feedback. */
  lemma SuffixExcess(history: seq<Feedback>, k: nat)
    requires k < |history|
    ensures Excess(history[k..]) == Excess(history[..|history| - 1][k..]) + if history[|history| - 1].success then -1 else 1
  {
    var suffix := history[k..];
    assert suffix[..|suffix| - 1] == history[..|history| - 1][k..];
  }

  /** No suffix of the history has a larger excess of failures than the counter. */
  lemma {:induction false} CounterBoundsSuffixes(history: seq<Feedback>, threshold: int, k: nat)
    requires k <= |history|
    ensures Excess(history[k..]) <= After(history, threshold).failures
  {
    if k < |history| {
      SuffixExcess(history, k);
      CounterBoundsSuffixes(history[..|history| - 1], threshold, k);
    }
  }

  /** Some suffix, perhaps the empty one, has exactly that excess. */
  lemma {:induction false} CounterIsReached(history: seq<Feedback>, threshold: int) returns (k: nat)
    ensures k <= |history| && Excess(history[k..]) == After(history, threshold).failures
  {
    k := |history|;
    if history != [] {
      var before, last := history[..|history| - 1], history[|history| - 1];
      if !(last.success && After(before, threshold).failures == 0) {
        k := CounterIsReached(before, threshold);
        SuffixExcess(history, k);
      }
    }
  }

  ghost predicate SomeSuffixReaches(history: seq<Feedback>, threshold: int) {
    exists k :: 0 <= k <= |history| && Excess(history[k..]) >= threshold
  }

  /** The counter is the largest excess of failures over successes of any suffix. */
  lemma CounterIsMaximalExcess(history: seq<Feedback>, threshold: int, bound: int)
    ensures After(history, threshold).failures >= bound <==> SomeSuffixReaches(history, bound)
  {
    var k := CounterIsReached(history, threshold);
    if SomeSuffixReaches(history, bound) {
      var j :| 0 <= j <= |history| && Excess(history[j..]) >= bound;
      CounterBoundsSuffixes(history, threshold, j);
    }
  }

  /** The cooldown is set exactly when the last call failed and some suffix has at least `threshold` more failures than successes;
      it then runs to the deadline of that last failure. */
  lemma {:induction false} CooldownIffSuffixReaches(history: seq<Feedback>, threshold: int)
    ensures After(history, threshold).cooldownUntil.Some? <==>
            history != [] && !history[|history| - 1].success && SomeSuffixReaches(history, threshold)
    ensures After(history, threshold).cooldownUntil.Some? ==>
              After(history, threshold).cooldownUntil.value == history[|history| - 1].deadline
  {
    CounterIsMaximalExcess(history, threshold, threshold);
    if history != [] {
      var before := history[..|history| - 1];
      CooldownIffSuffixReaches(before, threshold);
      CounterIsMaximalExcess(before, threshold, threshold);
    }
  }

  function SuccessCount(history: seq<Feedback>): nat {
    if history == [] then 0 else SuccessCount(history[..|history| - 1]) + if history[|history| - 1].success then 1 else 0
  }

  /** Trials and successes count the history, and successes plus failures never exceed the trials. */
  lemma {:induction false} CountersAddUp(history: seq<Feedback>, threshold: int)
    ensures var a := After(history, threshold);
            a.trials == |history| && a.successes == SuccessCount(history) && a.successes + a.failures <= a.trials
  {
    if history != [] { CountersAddUp(history[..|history| - 1], threshold); }
  }
}
