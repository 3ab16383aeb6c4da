/** The self-harness loop of `zilli/loops/harness_orchestrator.py`: which proposals it accepts
    over any number of cycles. Rates are reals; running the evaluation tasks is an input. */
module Harness {
  import opened Common

  /** One evaluation task: it raised, or it reported pass/fail per check. */
  datatype TaskRun = Raised | Reported(passed: seq<bool>)

  datatype Edit = Edit(pattern: string, accepted: bool, reason: Reason)
  datatype Reason = NoReason | Regression | TooLittleGain
  datatype Candidate = Candidate(version: string, edits: seq<Edit>, heldIn: real, heldOut: real, accepted: bool)

  datatype CycleResult = Nothing | Tried(candidate: Candidate)

  function Collected(runs: seq<TaskRun>): seq<bool> {
    if runs == [] then [] else
      Collected(runs[..|runs| - 1]) + (match runs[|runs| - 1] case Raised => [] case Reported(p) => p)
  }

  function Passes(results: seq<bool>): nat {
    if results == [] then 0 else Passes(results[..|results| - 1]) + (if results[|results| - 1] then 1 else 0)
  }

  function PassRate(results: seq<bool>): real {
    if results == [] then 0.0 else Passes(results) as real / |results| as real
  }

  lemma {:induction false} PassesBounded(results: seq<bool>)
    ensures Passes(results) <= |results|
  {
    if results != [] { PassesBounded(results[..|results| - 1]); }
  }

  lemma RateInUnit(results: seq<bool>)
    ensures 0.0 <= PassRate(results) <= 1.0
  {
    PassesBounded(results);
    if results != [] { Quotient(Passes(results) as real, |results| as real); }
  }

  lemma Quotient(x: real, y: real)
    requires 0.0 <= x <= y && y > 0.0
    ensures 0.0 <= x / y <= 1.0
  {
  }

  /** `clusters[:n]` for any integer n. */
  function FirstN<T>(s: seq<T>, n: int): seq<T> {
    if n >= |s| then s else if n >= 0 then s[..n] else if |s| + n >= 0 then s[..|s| + n] else []
  }

  function Digits(n: nat): string {
    if n < 10 then ['0' + n as char] else Digits(n / 10) + ['0' + (n % 10) as char]
  }

  /** The value of a decimal numeral. */
  function NumberOf(digits: string): int {
    if digits == "" then 0 else
      10 * NumberOf(digits[..|digits| - 1]) + (digits[|digits| - 1] as int - '0' as int)
  }

  lemma {:induction false} DigitsOfNumber(n: nat)
    ensures Digits(n) != "" && NumberOf(Digits(n)) == n && (n > 0 ==> Digits(n)[0] != '0')
    ensures forall i :: 0 <= i < |Digits(n)| ==> '0' <= Digits(n)[i] <= '9'
  {
    if n >= 10 {
      DigitsOfNumber(n / 10);
      assert Digits(n)[..|Digits(n)| - 1] == Digits(n / 10);
    }
  }

  function NextVersion(version: string, accepted: nat): (r: string)
    ensures |r| > |version|
  {
    version + "-" + Digits(accepted + 1)
  }

  // ----- the rate, in terms of the checks that were made -----

  /** The checks that the tasks reported on: check k of task t. */
  ghost function Checks(runs: seq<TaskRun>): set<(int, int)> {
    set t, k | 0 <= t < |runs| && runs[t].Reported? && 0 <= k < |runs[t].passed| :: (t, k)
  }

  ghost function Passed(runs: seq<TaskRun>): set<(int, int)> {
    set t, k | 0 <= t < |runs| && runs[t].Reported? && 0 <= k < |runs[t].passed| && runs[t].passed[k] :: (t, k)
  }

  ghost function Row(t: int, passed: seq<bool>): set<(int, int)> {
    set k | 0 <= k < |passed| :: (t, k)
  }

  ghost function GoodRow(t: int, passed: seq<bool>): set<(int, int)> {
    set k | 0 <= k < |passed| && passed[k] :: (t, k)
  }

  /** The checks of one task. */
  lemma {:induction false} RowCount(t: int, passed: seq<bool>)
    ensures |Row(t, passed)| == |passed|
  {
    if passed != [] {
      var n := |passed| - 1;
      RowCount(t, passed[..n]);
      assert Row(t, passed) == Row(t, passed[..n]) + {(t, n)};
    }
  }

  /** Those of them that passed. */
  lemma {:induction false} GoodRowCount(t: int, passed: seq<bool>)
    ensures |GoodRow(t, passed)| == Passes(passed)
  {
    if passed != [] {
      var n := |passed| - 1;
      GoodRowCount(t, passed[..n]);
      GoodRowSnoc(t, passed[..n], passed[n]);
      assert passed == passed[..n] + [passed[n]];
    }
  }

  lemma GoodRowSnoc(t: int, rest: seq<bool>, last: bool)
    ensures |GoodRow(t, rest + [last])| == |GoodRow(t, rest)| + (if last then 1 else 0)
  {
    assert GoodRow(t, rest + [last]) == GoodRow(t, rest) + (if last then {(t, |rest|)} else {});
  }

  lemma {:induction false} PassesConcat(a: seq<bool>, b: seq<bool>)
    ensures Passes(a + b) == Passes(a) + Passes(b)
  {
    if b == [] {
      assert a + b == a;
    } else {
      assert (a + b)[..|a + b| - 1] == a + b[..|b| - 1];
      PassesConcat(a, b[..|b| - 1]);
    }
  }

  lemma {:induction false} CollectedCounts(runs: seq<TaskRun>)
    ensures |Checks(runs)| == |Collected(runs)| && |Passed(runs)| == Passes(Collected(runs))
  {
    if runs != [] {
      var n := |runs| - 1;
      CollectedCounts(runs[..n]);
      OneMoreTask(runs[..n], runs[n]);
      assert runs == runs[..n] + [runs[n]];
    }
  }

  function Results(r: TaskRun): seq<bool> {
    match r
    case Raised => []
    case Reported(p) => p
  }

  lemma ChecksSnoc(before: seq<TaskRun>, r: TaskRun)
    ensures Checks(before + [r]) == Checks(before) + Row(|before|, Results(r))
    ensures Checks(before) !! Row(|before|, Results(r))
  {
  }

  lemma PassedSnoc(before: seq<TaskRun>, r: TaskRun)
    ensures Passed(before + [r]) == Passed(before) + GoodRow(|before|, Results(r))
    ensures Passed(before) !! GoodRow(|before|, Results(r))
  {
  }

  lemma OneMoreTask(before: seq<TaskRun>, r: TaskRun)
    requires |Checks(before)| == |Collected(before)| && |Passed(before)| == Passes(Collected(before))
    ensures var runs := before + [r];
            |Checks(runs)| == |Collected(runs)| && |Passed(runs)| == Passes(Collected(runs))
  {
    assert (before + [r])[..|before|] == before;
    RowCount(|before|, Results(r));
    GoodRowCount(|before|, Results(r));
    PassesConcat(Collected(before), Results(r));
    ChecksSnoc(before, r);
    PassedSnoc(before, r);
  }

  lemma ShareOf(passed: nat, all: nat, rate: real)
    requires passed <= all && rate == if all == 0 then 0.0 else passed as real / all as real
    ensures rate == 1.0 <==> all > 0 && passed == all
  {
    if all > 0 { Divided(passed as real, all as real); }
  }

  lemma Divided(x: real, y: real)
    requires y > 0.0
    ensures x / y == 1.0 <==> x == y
  {
  }

  lemma RateCounts(runs: seq<TaskRun>)
    ensures var rate := PassRate(Collected(runs));
            && rate == (if Checks(runs) == {} then 0.0 else |Passed(runs)| as real / |Checks(runs)| as real)
            && (rate == 1.0 <==> Checks(runs) != {} && Checks(runs) == Passed(runs))
  {
    var checks, passed := Checks(runs), Passed(runs);
    CollectedCounts(runs);
    PassedCheck(runs);
    SubsetCount(passed, checks);
    ShareOf(|passed|, |checks|, PassRate(Collected(runs)));
  }

  lemma PassedCheck(runs: seq<TaskRun>)
    ensures Passed(runs) <= Checks(runs)
  {
  }

  /** The rate is the share of the checks that passed: zero without any, and one exactly when
      there are some and all passed. */
  lemma RateSpelled(runs: seq<TaskRun>)
    ensures var checks := set t, k | 0 <= t < |runs| && runs[t].Reported? && 0 <= k < |runs[t].passed| :: (t, k);
            checks == Checks(runs)
    ensures var passed := set t, k | 0 <= t < |runs| && runs[t].Reported? && 0 <= k < |runs[t].passed|
                                     && runs[t].passed[k] :: (t, k);
            passed == Passed(runs)
    ensures var rate := PassRate(Collected(runs));
            && rate == (if Checks(runs) == {} then 0.0 else |Passed(runs)| as real / |Checks(runs)| as real)
            && (rate == 1.0 <==> Checks(runs) != {} && Checks(runs) == Passed(runs))
  {
    RateCounts(runs);
  }

  method Evaluate(runs: seq<TaskRun>) returns (rate: real)
    ensures rate == PassRate(Collected(runs)) && 0.0 <= rate <= 1.0
    ensures rate == if Checks(runs) == {} then 0.0 else |Passed(runs)| as real / |Checks(runs)| as real
    ensures rate == 1.0 <==> Checks(runs) != {} && Checks(runs) == Passed(runs)
  {
    rate := RateOf(runs);
    RateCounts(runs);
  }

  /** Both evaluations of a candidate. */
  method EvaluateBoth(heldIn: seq<TaskRun>, heldOut: seq<TaskRun>) returns (inRate: real, outRate: real)
    ensures inRate == PassRate(Collected(heldIn)) && inRate <= 1.0
    ensures outRate == PassRate(Collected(heldOut)) && outRate <= 1.0
  {
    inRate := Evaluate(heldIn);
    outRate := Evaluate(heldOut);
  }

  method RateOf(runs: seq<TaskRun>) returns (rate: real)
    ensures rate == PassRate(Collected(runs)) && 0.0 <= rate <= 1.0
  {
    var results: seq<bool> := [];
    for i := 0 to |runs|
      invariant results == Collected(runs[..i])
    {
      assert runs[..i + 1][..i] == runs[..i];
      match runs[i]
      case Raised => assert results + [] == results;
      case Reported(p) => results := results + p;
    }
    assert runs[..|runs|] == runs;
    RateInUnit(results);
    rate := PassRate(results);
  }

  /** What holds of the accepted candidates: each passes every held-out check and gains at
      least the threshold on the held-in checks. */
  ghost predicate Accumulated(history: seq<Candidate>, threshold: real) {
    forall i :: 0 <= i < |history| ==> Gained(history, threshold, i)
  }

  ghost predicate Gained(history: seq<Candidate>, threshold: real, i: nat)
    requires i < |history|
  {
    && history[i].accepted && history[i].heldOut == 1.0 && history[i].heldIn <= 1.0
    && history[i].heldIn - (if i == 0 then 0.0 else history[i - 1].heldIn) >= threshold
  }

  lemma Accept(history: seq<Candidate>, c: Candidate, threshold: real)
    requires Accumulated(history, threshold)
    requires c.accepted && c.heldIn <= 1.0 && c.heldOut <= 1.0
    requires c.heldIn - (if history == [] then 0.0 else history[|history| - 1].heldIn) >= threshold
    requires c.heldOut >= (if history == [] then 1.0 else history[|history| - 1].heldOut)
    ensures Accumulated(history + [c], threshold)
  {
    if history != [] { assert Gained(history, threshold, |history| - 1); }
    forall i | 0 <= i < |history + [c]| ensures Gained(history + [c], threshold, i) {
      if i < |history| { assert Gained(history, threshold, i); }
    }
  }

  ghost predicate VersionsGrow(history: seq<Candidate>, version: string) {
    && (forall i, j :: 0 <= i < j < |history| ==> |history[i].version| < |history[j].version|)
    && (history != [] ==> version == history[|history| - 1].version)
  }

  /** One edit for each pattern, all with the verdict and the reason for it. */
  method Draft(chosen: seq<string>, accepted: bool, regression: bool) returns (edits: seq<Edit>)
    ensures |edits| == |chosen|
    ensures forall k :: 0 <= k < |edits| ==>
              && edits[k].pattern == chosen[k] && edits[k].accepted == accepted
              && (edits[k].reason == NoReason <==> accepted)
              && (edits[k].reason == Regression <==> !accepted && regression)
  {
    var reason := if accepted then NoReason else if regression then Regression else TooLittleGain;
    edits := seq(|chosen|, k requires 0 <= k < |chosen| => Edit(chosen[k], accepted, reason));
  }

  lemma VersionAdded(history: seq<Candidate>, version: string, c: Candidate)
    requires VersionsGrow(history, version) && |c.version| > |version|
    ensures VersionsGrow(history + [c], c.version)
  {
  }

  lemma FirstOnes<T>(s: seq<T>, n: int)
    ensures var first := FirstN(s, n);
            && |first| <= |s| && first == s[..|first|]
            && (first == [] <==> s == [] || n == 0 || |s| + n <= 0)
            && (first != [] ==> |first| == if n < 0 then |s| + n else if n < |s| then n else |s|)
  {
  }

  class HarnessOrchestrator {
    var version: string
    var history: seq<Candidate>
    var rejectedEdits: seq<Edit>
    const maxEdits: int
    const threshold: real

    ghost predicate Valid()
      reads this
    {
      Accumulated(history, threshold) && VersionsGrow(history, version)
    }

    constructor (version: string, maxEdits: int, threshold: real)
      ensures Valid() && history == [] && rejectedEdits == [] && this.version == version
      ensures this.maxEdits == maxEdits && this.threshold == threshold
    {
      this.version, history, rejectedEdits := version, [], [];
      this.maxEdits, this.threshold := maxEdits, threshold;
    }

    /** One cycle over the mined failure patterns. A proposal is accepted exactly when it gains
        the threshold on the held-in checks and does not fall behind on the held-out ones. */
    method RunCycle(patterns: seq<string>, heldIn: seq<TaskRun>, heldOut: seq<TaskRun>) returns (r: CycleResult)
      requires Valid()
      modifies this
      ensures Valid()
      ensures r == Nothing <==> patterns == [] || maxEdits == 0 || |patterns| + maxEdits <= 0
      ensures r == Nothing ==> unchanged(this)
      ensures r.Tried? ==>
                var c := r.candidate;
                && c.heldIn == PassRate(Collected(heldIn)) && c.heldOut == PassRate(Collected(heldOut))
                && (c.accepted <==>
                      && c.heldIn >= threshold
                           + (if old(history) == [] then 0.0 else old(history)[|old(history)| - 1].heldIn)
                      && c.heldOut >= (if old(history) == [] then 1.0 else old(history)[|old(history)| - 1].heldOut))
                && history == (if c.accepted then old(history) + [c] else old(history))
                && version == (if c.accepted then c.version else old(version))
                && rejectedEdits == (if c.accepted then old(rejectedEdits) else old(rejectedEdits) + c.edits)
                && |c.edits| == (if maxEdits < 0 then |patterns| + maxEdits
                                 else if maxEdits < |patterns| then maxEdits else |patterns|)
                && (forall k :: 0 <= k < |c.edits| ==>
                      && c.edits[k].pattern == patterns[k] && c.edits[k].accepted == c.accepted
                      && (c.edits[k].reason == NoReason <==> c.accepted)
                      && (c.edits[k].reason == Regression
                          <==> c.heldOut < if old(history) == [] then 1.0
                                           else old(history)[|old(history)| - 1].heldOut))
                && c.version == old(version) + "-" + Digits(|old(history)| + 1)
    {
      var chosen := FirstN(patterns, maxEdits);
      FirstOnes(patterns, maxEdits);
      if chosen == [] { return Nothing; }
      var inRate, outRate := EvaluateBoth(heldIn, heldOut);
      var before := if history == [] then 0.0 else history[|history| - 1].heldIn;
      var regression := outRate < (if history == [] then 1.0 else history[|history| - 1].heldOut);
      var accepted := inRate - before >= threshold && !regression;
      var edits := Draft(chosen, accepted, regression);
      var candidate := Candidate(NextVersion(version, |history|), edits, inRate, outRate, accepted);
      if accepted {
        Accept(history, candidate, threshold);
        VersionAdded(history, version, candidate);
        history := history + [candidate];
        version := candidate.version;
      } else {
        rejectedEdits := rejectedEdits + edits;
      }
      r := Tried(candidate);
    }
  }

  // ----- over any number of cycles -----

  /** The i-th accepted candidate (counting from one) passes at least i thresholds' worth. */
  lemma {:induction false} GainsAddUp(history: seq<Candidate>, threshold: real, i: nat)
    requires Accumulated(history, threshold) && i < |history|
    ensures history[i].heldIn >= (i + 1) as real * threshold
  {
    var now := history[i].heldIn;
    assert Gained(history, threshold, i);
    if i == 0 {
      assert now - 0.0 >= threshold;
    } else {
      GainsAddUp(history, threshold, i - 1);
      var before := history[i - 1].heldIn;
      assert now - before >= threshold;
      OneMore(i as real, before, now, threshold);
    }
  }

  lemma OneMore(x: real, before: real, now: real, c: real)
    requires before >= x * c && now - before >= c
    ensures now >= (x + 1.0) * c
  {
    assert (x + 1.0) * c == x * c + c;
  }

  /** So at most 1/threshold candidates are ever accepted. */
  lemma FewAccepted(history: seq<Candidate>, threshold: real)
    requires Accumulated(history, threshold) && threshold > 0.0
    ensures |history| as real <= 1.0 / threshold
  {
    if history != [] {
      var n := |history|;
      GainsAddUp(history, threshold, n - 1);
      assert Gained(history, threshold, n - 1);
    } else {
      Quotient(0.0, threshold);
    }
  }
}
