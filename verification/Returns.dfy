/** Discounted returns and generalised advantage estimation, from `zilli/training/cispo.py`.
    Both are backward loops over an episode log with `done` flags; floats are reals. */
module Returns {
  import opened Common

  function Keep(done: bool): real {
    if done then 0.0 else 1.0
  }

  // ----- the two recurrences, read backwards -----

  ghost function Discounted(rewards: seq<real>, dones: seq<bool>, gamma: real, t: nat): real
    requires |rewards| <= |dones|
    decreases |rewards| - t
  {
    if t >= |rewards| then 0.0
    else Backup(rewards[t], gamma, Discounted(rewards, dones, gamma, t + 1), dones[t])
  }

  function Backup(reward: real, gamma: real, rest: real, done: bool): real {
    reward + gamma * rest * Keep(done)
  }

  ghost function Delta(rewards: seq<real>, values: seq<real>, dones: seq<bool>, gamma: real, t: nat): real
    requires |rewards| == |values| == |dones| && t < |rewards|
  {
    var next := if t == |rewards| - 1 then 0.0 else values[t + 1];
    rewards[t] + gamma * next * Keep(dones[t]) - values[t]
  }

  ghost function Gae(rewards: seq<real>, values: seq<real>, dones: seq<bool>, gamma: real, lam: real, t: nat): real
    requires |rewards| == |values| == |dones|
    decreases |rewards| - t
  {
    if t >= |rewards| then 0.0
    else Delta(rewards, values, dones, gamma, t)
         + gamma * lam * Keep(dones[t]) * Gae(rewards, values, dones, gamma, lam, t + 1)
  }

  // ----- the loops -----

  function Reversed(s: seq<real>): (r: seq<real>)
    ensures |r| == |s| && forall k :: 0 <= k < |s| ==> r[k] == s[|s| - 1 - k]
  {
    seq(|s|, k requires 0 <= k < |s| => s[|s| - 1 - k])
  }

  /** A return adds the discounted next one, unless the step is done or the last. */
  lemma DiscountedSpelled(rewards: seq<real>, dones: seq<bool>, gamma: real, t: nat)
    requires |rewards| <= |dones| && t < |rewards|
    ensures Discounted(rewards, dones, gamma, t) == rewards[t]
         + if dones[t] || t + 1 == |rewards| then 0.0 else gamma * Discounted(rewards, dones, gamma, t + 1)
  {
  }

  /** The first summand looks one value ahead, and the rest is the next advantage, unless the
      step is done or the last. */
  lemma GaeSpelled(rewards: seq<real>, values: seq<real>, dones: seq<bool>, gamma: real, lam: real, t: nat)
    requires |rewards| == |values| == |dones| && t < |rewards|
    ensures Gae(rewards, values, dones, gamma, lam, t) == rewards[t] - values[t]
         + if dones[t] || t + 1 == |rewards| then 0.0
           else gamma * values[t + 1] + gamma * lam * Gae(rewards, values, dones, gamma, lam, t + 1)
  {
  }

  method ComputeAdvantages(gamma: real, rewards: seq<real>, dones: seq<bool>) returns (discounted: seq<real>)
    requires |rewards| <= |dones|
    ensures |discounted| == |rewards|
    ensures forall t: nat :: t < |rewards| ==> discounted[t] == Discounted(rewards, dones, gamma, t)
  {
    if rewards == [] { return []; }
    var collected: seq<real> := [];
    var acc := 0.0;
    for t := |rewards| downto 0
      invariant |collected| == |rewards| - t && acc == Discounted(rewards, dones, gamma, t)
      invariant forall k: nat :: k < |collected| ==>
                  collected[k] == Discounted(rewards, dones, gamma, |rewards| - 1 - k)
    {
      acc := rewards[t] + gamma * acc * Keep(dones[t]);
      collected := collected + [acc];
    }
    discounted := Reversed(collected);
  }

  datatype GaeResult = LengthMismatch | Advantages(values: seq<real>)

  method ComputeGaeAdvantages(gamma: real, lam: real, rewards: seq<real>, values: seq<real>, dones: seq<bool>)
    returns (r: GaeResult)
    ensures rewards == [] || values == [] || dones == [] ==> r == Advantages([])
    ensures r == LengthMismatch <==> rewards != [] && values != [] && dones != [] && !(|rewards| == |values| == |dones|)
    ensures rewards != [] && |rewards| == |values| == |dones| ==>
              && r.Advantages? && |r.values| == |rewards|
              && forall t: nat :: t < |rewards| ==> r.values[t] == Gae(rewards, values, dones, gamma, lam, t)
  {
    if rewards == [] || values == [] || dones == [] { return Advantages([]); }
    if !(|rewards| == |values| == |dones|) { return LengthMismatch; }
    var advantages: seq<real> := [];
    var gae := 0.0;
    for t := |rewards| downto 0
      invariant |advantages| == |rewards| - t && gae == Gae(rewards, values, dones, gamma, lam, t)
      invariant forall k: nat :: t <= k < |rewards| ==> advantages[k - t] == Gae(rewards, values, dones, gamma, lam, k)
    {
      var nextVal := if t == |rewards| - 1 then 0.0 else values[t + 1];
      var delta := rewards[t] + gamma * nextVal * Keep(dones[t]) - values[t];
      gae := delta + gamma * lam * Keep(dones[t]) * gae;
      advantages := [gae] + advantages;
    }
    r := Advantages(advantages);
  }

  // ----- what they mean: a forward sum up to the end of the episode -----

  /** Term t, t+1, ... with weights w, w*rate, w*rate^2, ..., ending with the first done step. */
  ghost function EpisodeSum(terms: seq<real>, dones: seq<bool>, rate: real, t: nat, w: real): real
    requires |terms| <= |dones|
    decreases |terms| - t
  {
    if t >= |terms| then 0.0
    else w * terms[t] + (if dones[t] then 0.0 else EpisodeSum(terms, dones, rate, t + 1, w * rate))
  }

  lemma {:induction false} DiscountedIsEpisodeSum(rewards: seq<real>, dones: seq<bool>, gamma: real, t: nat, w: real)
    requires |rewards| <= |dones|
    ensures EpisodeSum(rewards, dones, gamma, t, w) == w * Discounted(rewards, dones, gamma, t)
    decreases |rewards| - t
  {
    if t < |rewards| {
      DiscountedIsEpisodeSum(rewards, dones, gamma, t + 1, w * gamma);
      var rest := Discounted(rewards, dones, gamma, t + 1);
      if dones[t] {
        assert Discounted(rewards, dones, gamma, t) == rewards[t];
      } else {
        Distribute(w, rewards[t], gamma, rest);
      }
    }
  }

  lemma Distribute(w: real, x: real, rate: real, rest: real)
    ensures w * (x + rate * rest) == w * x + (w * rate) * rest
  {
    assert w * (x + rate * rest) == w * x + w * (rate * rest);
  }

  ghost function Deltas(rewards: seq<real>, values: seq<real>, dones: seq<bool>, gamma: real): (r: seq<real>)
    requires |rewards| == |values| == |dones|
    ensures |r| == |rewards| && forall t: nat :: t < |r| ==> r[t] == Delta(rewards, values, dones, gamma, t)
  {
    seq(|rewards|, t requires 0 <= t < |rewards| => Delta(rewards, values, dones, gamma, t))
  }

  /** GAE is the episode sum of the temporal differences at rate gamma * lambda. */
  lemma {:induction false} GaeIsEpisodeSum(rewards: seq<real>, values: seq<real>, dones: seq<bool>, gamma: real,
                                           lam: real, t: nat, w: real)
    requires |rewards| == |values| == |dones|
    ensures EpisodeSum(Deltas(rewards, values, dones, gamma), dones, gamma * lam, t, w)
         == w * Gae(rewards, values, dones, gamma, lam, t)
    decreases |rewards| - t
  {
    if t < |rewards| {
      var rate := gamma * lam;
      GaeIsEpisodeSum(rewards, values, dones, gamma, lam, t + 1, w * rate);
      var rest := Gae(rewards, values, dones, gamma, lam, t + 1);
      var delta := Delta(rewards, values, dones, gamma, t);
      if dones[t] {
        assert rate * Keep(dones[t]) * rest == 0.0;
      } else {
        assert rate * Keep(dones[t]) * rest == rate * rest;
        Distribute(w, delta, rate, rest);
      }
    }
  }

  // ----- the telescoping identity -----

  /** With lambda = 1 the advantage is the return minus the value, at every step. */
  lemma {:induction false} LambdaOne(rewards: seq<real>, values: seq<real>, dones: seq<bool>, gamma: real, t: nat)
    requires |rewards| == |values| == |dones| && t < |rewards|
    ensures Gae(rewards, values, dones, gamma, 1.0, t) == Discounted(rewards, dones, gamma, t) - values[t]
    decreases |rewards| - t
  {
    if t + 1 < |rewards| {
      LambdaOne(rewards, values, dones, gamma, t + 1);
      var a, g, v := Gae(rewards, values, dones, gamma, 1.0, t + 1), Discounted(rewards, dones, gamma, t + 1),
          values[t + 1];
      var k := Keep(dones[t]);
      assert gamma * v * k + gamma * 1.0 * k * a == gamma * g * k by {
        if dones[t] { } else { assert gamma * v + gamma * a == gamma * (v + a); }
      }
    }
  }

  /** With the returns themselves as values the advantage vanishes, for every lambda. */
  lemma {:induction false} ReturnsAsValues(rewards: seq<real>, values: seq<real>, dones: seq<bool>, gamma: real,
                                           lam: real, t: nat)
    requires |rewards| == |values| == |dones|
    requires forall k: nat :: k < |rewards| ==> values[k] == Discounted(rewards, dones, gamma, k)
    ensures Gae(rewards, values, dones, gamma, lam, t) == 0.0
    decreases |rewards| - t
  {
    if t < |rewards| {
      ReturnsAsValues(rewards, values, dones, gamma, lam, t + 1);
      assert Delta(rewards, values, dones, gamma, t) == 0.0;
    }
  }

  // ----- episodes are independent -----

  /** Nothing after a done step influences anything up to it. */
  lemma {:induction false} DiscountedSplits(r1: seq<real>, d1: seq<bool>, r2: seq<real>, d2: seq<bool>, gamma: real,
                                            t: nat)
    requires |r1| == |d1| && |r2| == |d2| && r1 != [] && d1[|d1| - 1] && t < |r1|
    ensures Discounted(r1 + r2, d1 + d2, gamma, t) == Discounted(r1, d1, gamma, t)
    decreases |r1| - t
  {
    if t + 1 < |r1| {
      DiscountedSplits(r1, d1, r2, d2, gamma, t + 1);
    }
  }

  lemma {:induction false} DiscountedShifts(r1: seq<real>, d1: seq<bool>, r2: seq<real>, d2: seq<bool>, gamma: real,
                                            t: nat)
    requires |r1| == |d1| && |r2| == |d2|
    ensures Discounted(r1 + r2, d1 + d2, gamma, |r1| + t) == Discounted(r2, d2, gamma, t)
    decreases |r2| - t
  {
    if t < |r2| {
      DiscountedShifts(r1, d1, r2, d2, gamma, t + 1);
    }
  }

  lemma {:induction false} GaeSplits(r1: seq<real>, v1: seq<real>, d1: seq<bool>, r2: seq<real>, v2: seq<real>,
                                     d2: seq<bool>, gamma: real, lam: real, t: nat)
    requires |r1| == |v1| == |d1| && |r2| == |v2| == |d2| && r1 != [] && d1[|d1| - 1] && t < |r1|
    ensures Gae(r1 + r2, v1 + v2, d1 + d2, gamma, lam, t) == Gae(r1, v1, d1, gamma, lam, t)
    decreases |r1| - t
  {
    if t + 1 < |r1| {
      GaeSplits(r1, v1, d1, r2, v2, d2, gamma, lam, t + 1);
      assert Delta(r1 + r2, v1 + v2, d1 + d2, gamma, t) == Delta(r1, v1, d1, gamma, t);
    } else {
      Cut(r1[t], gamma, if r2 == [] then 0.0 else v2[0], lam);
      Cut(r1[t], gamma, Gae(r1 + r2, v1 + v2, d1 + d2, gamma, lam, t + 1), lam);
      Cut(r1[t], gamma, Gae(r1, v1, d1, gamma, lam, t + 1), lam);
    }
  }

  lemma Cut(x: real, gamma: real, y: real, lam: real)
    ensures x + gamma * y * 0.0 == x && gamma * lam * 0.0 * y == 0.0
  {
  }

  lemma {:induction false} GaeShifts(r1: seq<real>, v1: seq<real>, d1: seq<bool>, r2: seq<real>, v2: seq<real>,
                                     d2: seq<bool>, gamma: real, lam: real, t: nat)
    requires |r1| == |v1| == |d1| && |r2| == |v2| == |d2|
    ensures Gae(r1 + r2, v1 + v2, d1 + d2, gamma, lam, |r1| + t) == Gae(r2, v2, d2, gamma, lam, t)
    decreases |r2| - t
  {
    if t < |r2| {
      GaeShifts(r1, v1, d1, r2, v2, d2, gamma, lam, t + 1);
      DeltaShifts(r1, v1, d1, r2, v2, d2, gamma, t);
      assert (d1 + d2)[|r1| + t] == d2[t];
    }
  }

  lemma DeltaShifts(r1: seq<real>, v1: seq<real>, d1: seq<bool>, r2: seq<real>, v2: seq<real>, d2: seq<bool>,
                    gamma: real, t: nat)
    requires |r1| == |v1| == |d1| && |r2| == |v2| == |d2| && t < |r2|
    ensures Delta(r1 + r2, v1 + v2, d1 + d2, gamma, |r1| + t) == Delta(r2, v2, d2, gamma, t)
  {
  }

  // ----- bounded rewards bound the returns -----

  ghost predicate IsLimit(gamma: real, bound: real, limit: real) {
    0.0 <= gamma && bound + gamma * limit == limit
  }

  lemma {:induction false} BoundedByLimit(rewards: seq<real>, dones: seq<bool>, gamma: real, bound: real, limit: real,
                                          t: nat)
    requires |rewards| <= |dones| && 0.0 <= limit && IsLimit(gamma, bound, limit)
    requires forall k :: 0 <= k < |rewards| ==> Abs(rewards[k]) <= bound
    ensures Abs(Discounted(rewards, dones, gamma, t)) <= limit
    decreases |rewards| - t
  {
    if t < |rewards| {
      BoundedByLimit(rewards, dones, gamma, bound, limit, t + 1);
      StepBound(rewards[t], gamma, Discounted(rewards, dones, gamma, t + 1), dones[t], bound, limit);
    }
  }

  /** Rewards within R keep every return within R / (1 - gamma). */
  lemma BoundedReturns(rewards: seq<real>, dones: seq<bool>, gamma: real, bound: real, t: nat)
    requires |rewards| <= |dones| && 0.0 <= gamma < 1.0 && bound >= 0.0
    requires forall k :: 0 <= k < |rewards| ==> Abs(rewards[k]) <= bound
    ensures Abs(Discounted(rewards, dones, gamma, t)) <= bound / (1.0 - gamma)
  {
    var limit := bound / (1.0 - gamma);
    LimitFixed(bound, gamma, limit);
    BoundedByLimit(rewards, dones, gamma, bound, limit, t);
  }

  lemma StepBound(reward: real, gamma: real, rest: real, done: bool, bound: real, limit: real)
    requires IsLimit(gamma, bound, limit) && Abs(reward) <= bound && Abs(rest) <= limit
    ensures Abs(Backup(reward, gamma, rest, done)) <= limit
  {
    Shrinks(gamma, rest, limit);
    var x := gamma * rest;
    var y := x * Keep(done);
    assert y == if done then 0.0 else x;
    var g := gamma * limit;
    assert bound + g == limit && Abs(y) <= g;
    assert Abs(reward + y) <= bound + g;
    assert Backup(reward, gamma, rest, done) == reward + y;
  }

  lemma LimitFixed(bound: real, gamma: real, limit: real)
    requires 0.0 <= gamma < 1.0 && bound >= 0.0 && limit == bound / (1.0 - gamma)
    ensures limit >= 0.0 && IsLimit(gamma, bound, limit)
  {
    assert limit * (1.0 - gamma) == bound;
    assert limit * (1.0 - gamma) == limit - gamma * limit;
    assert limit < 0.0 ==> limit * (1.0 - gamma) < 0.0;
  }

  lemma Shrinks(gamma: real, x: real, limit: real)
    requires 0.0 <= gamma && Abs(x) <= limit
    ensures Abs(gamma * x) <= gamma * limit && 0.0 <= gamma * limit
  {
    NonNegativeProduct(gamma, limit - x);
    NonNegativeProduct(gamma, limit + x);
    assert gamma * (limit - x) == gamma * limit - gamma * x;
    assert gamma * (limit + x) == gamma * limit + gamma * x;
  }

  lemma NonNegativeProduct(x: real, y: real)
    requires x >= 0.0 && y >= 0.0
    ensures x * y >= 0.0
  {
  }
}
