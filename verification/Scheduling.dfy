/** Loads of an assignment of jobs to workers, and Graham's bounds for greedy assignment. */
module Scheduling {

  /** The load of worker w: the sum of the lengths assigned to it. */
  ghost function Load(assign: seq<nat>, lens: seq<int>, w: nat): int
    requires |assign| == |lens|
  {
    if assign == [] then 0 else
      var k := |assign| - 1;
      Load(assign[..k], lens[..k], w) + (if assign[k] == w then lens[k] else 0)
  }

  ghost function Sum(lens: seq<int>): int {
    if lens == [] then 0 else Sum(lens[..|lens| - 1]) + lens[|lens| - 1]
  }

  ghost predicate IsAssignment(assign: seq<nat>, lens: seq<int>, m: nat) {
    |assign| == |lens| && forall k :: 0 <= k < |assign| ==> assign[k] < m
  }

  ghost predicate Within(assign: seq<nat>, lens: seq<int>, m: nat, bound: int)
    requires |assign| == |lens|
  {
    forall w: nat :: w < m ==> Load(assign, lens, w) <= bound
  }

  ghost predicate NonNegative(lens: seq<int>) {
    forall k :: 0 <= k < |lens| ==> lens[k] >= 0
  }

  ghost predicate Descending(lens: seq<int>) {
    forall i, j :: 0 <= i < j < |lens| ==> lens[i] >= lens[j]
  }

  /** Each job goes to the first of the least loaded workers. */
  ghost predicate IsGreedy(assign: seq<nat>, lens: seq<int>, m: nat) {
    && IsAssignment(assign, lens, m)
    && forall k, w: nat :: 0 <= k < |assign| && w < m ==> LeastLoaded(assign[..k], lens[..k], assign[k], w)
  }

  ghost predicate LeastLoaded(assign: seq<nat>, lens: seq<int>, target: nat, w: nat)
    requires |assign| == |lens|
  {
    && Load(assign, lens, target) <= Load(assign, lens, w)
    && (w < target ==> Load(assign, lens, target) < Load(assign, lens, w))
  }

  /** A job adds its length to its worker's load, and to no other. */
  lemma LoadSnoc(assign: seq<nat>, lens: seq<int>, target: nat, length: int, w: nat)
    requires |assign| == |lens|
    ensures Load([], [], w) == 0
    ensures Load(assign + [target], lens + [length], w) == Load(assign, lens, w) + if target == w then length else 0
  {
    assert (assign + [target])[..|assign|] == assign && (lens + [length])[..|lens|] == lens;
  }

  /** In a greedy run no worker had less than the one a job went to, and none before it as little. */
  lemma GreedySpelled(assign: seq<nat>, lens: seq<int>, m: nat, k: nat, w: nat)
    requires IsGreedy(assign, lens, m) && k < |assign| && w < m
    ensures |assign| == |lens| && assign[k] < m
    ensures Load(assign[..k], lens[..k], assign[k]) <= Load(assign[..k], lens[..k], w)
    ensures w < assign[k] ==> Load(assign[..k], lens[..k], assign[k]) < Load(assign[..k], lens[..k], w)
  {
    assert LeastLoaded(assign[..k], lens[..k], assign[k], w);
  }

  // ----- sums over the workers -----

  ghost function TotalLoad(assign: seq<nat>, lens: seq<int>, m: nat): int
    requires |assign| == |lens|
  {
    if m == 0 then 0 else TotalLoad(assign, lens, m - 1) + Load(assign, lens, m - 1)
  }

  lemma {:induction false} TotalStep(assign: seq<nat>, lens: seq<int>, m: nat)
    requires |assign| == |lens| > 0
    ensures var k := |assign| - 1;
            TotalLoad(assign, lens, m) == TotalLoad(assign[..k], lens[..k], m) + (if assign[k] < m then lens[k] else 0)
  {
    if m > 0 { TotalStep(assign, lens, m - 1); }
  }

  lemma {:induction false} TotalIsSum(assign: seq<nat>, lens: seq<int>, m: nat)
    requires IsAssignment(assign, lens, m)
    ensures TotalLoad(assign, lens, m) == Sum(lens)
  {
    if assign == [] {
      TotalNone(m);
    } else {
      var k := |assign| - 1;
      TotalStep(assign, lens, m);
      TotalIsSum(assign[..k], lens[..k], m);
    }
  }

  lemma {:induction false} TotalNone(m: nat)
    ensures TotalLoad([], [], m) == 0
  {
    if m > 0 { TotalNone(m - 1); }
  }

  lemma {:induction false} TotalAtMost(assign: seq<nat>, lens: seq<int>, m: nat, bound: int)
    requires |assign| == |lens| && Within(assign, lens, m, bound)
    ensures TotalLoad(assign, lens, m) <= m * bound
  {
    if m > 0 {
      TotalAtMost(assign, lens, m - 1, bound);
      assert m * bound == (m - 1) * bound + bound;
    }
  }

  lemma {:induction false} TotalAtLeast(assign: seq<nat>, lens: seq<int>, m: nat, bound: int)
    requires |assign| == |lens| && forall w: nat :: w < m ==> bound <= Load(assign, lens, w)
    ensures m * bound <= TotalLoad(assign, lens, m)
  {
    if m > 0 {
      TotalAtLeast(assign, lens, m - 1, bound);
      assert m * bound == (m - 1) * bound + bound;
    }
  }

  /** Dropping the jobs from k on lowers no assignment's loads below their prefix. */
  lemma {:induction false} PrefixLoad(assign: seq<nat>, lens: seq<int>, w: nat, k: nat)
    requires |assign| == |lens| && NonNegative(lens) && k <= |assign|
    ensures 0 <= Load(assign[..k], lens[..k], w) <= Load(assign, lens, w)
    decreases |assign|
  {
    if assign == [] {
    } else if k == |assign| {
      assert assign[..k] == assign && lens[..k] == lens;
      PrefixLoad(assign[..k - 1], lens[..k - 1], w, k - 1);
    } else {
      var n := |assign| - 1;
      PrefixLoad(assign[..n], lens[..n], w, k);
      assert assign[..n][..k] == assign[..k] && lens[..n][..k] == lens[..k];
    }
  }

  // ----- one job of a greedy run -----

  /** The job's own length fits the bound, and the average before it does. */
  lemma JobFits(g: seq<nat>, f: seq<nat>, lens: seq<int>, m: nat, bound: int, k: nat)
    requires IsGreedy(g, lens, m) && IsAssignment(f, lens, m) && NonNegative(lens) && k < |lens|
    requires Within(f, lens, m, bound)
    ensures Within(f[..k + 1], lens[..k + 1], m, bound)
    ensures 0 <= lens[k] <= bound
    ensures m * Load(g[..k], lens[..k], g[k]) + lens[k] <= m * bound
  {
    var f', lens' := f[..k + 1], lens[..k + 1];
    forall w: nat | w < m ensures Load(f', lens', w) <= bound { PrefixLoad(f, lens, w, k + 1); }
    assert f[..k + 1][..k] == f[..k] && lens[..k + 1][..k] == lens[..k];
    PrefixLoad(f, lens, f[k], k);
    assert Load(f[..k + 1], lens[..k + 1], f[k]) == Load(f[..k], lens[..k], f[k]) + lens[k];
    TotalAtMost(f[..k + 1], lens[..k + 1], m, bound);
    TotalIsSum(f[..k + 1], lens[..k + 1], m);
    var least := Load(g[..k], lens[..k], g[k]);
    forall w: nat | w < m ensures least <= Load(g[..k], lens[..k], w) {
      assert LeastLoaded(g[..k], lens[..k], g[k], w);
    }
    TotalAtLeast(g[..k], lens[..k], m, least);
    TotalIsSum(g[..k], lens[..k], m);
  }

  lemma ListArithmetic(m: int, least: int, p: int, bound: int)
    requires m >= 1 && p <= bound && m * least + p <= m * bound
    ensures m * (least + p) <= (2 * m - 1) * bound
  {
    Scale(m - 1, p, bound);
    assert m * (least + p) == m * least + p + (m - 1) * p;
    assert (2 * m - 1) * bound == m * bound + (m - 1) * bound;
  }

  lemma ShortArithmetic(m: int, least: int, p: int, bound: int)
    requires m >= 1 && 3 * p <= bound && m * least + p <= m * bound
    ensures 3 * m * (least + p) <= (4 * m - 1) * bound
  {
    Scale(m - 1, 3 * p, bound);
    assert 3 * m * (least + p) == 3 * (m * least + p) + (m - 1) * (3 * p);
    assert (4 * m - 1) * bound == 3 * (m * bound) + (m - 1) * bound;
  }

  lemma FitArithmetic(m: int, load: int, bound: int)
    requires m >= 1 && load <= bound && 0 <= bound
    ensures 3 * m * load <= (4 * m - 1) * bound
  {
    Scale(3 * m, load, bound);
    Scale(m - 1, 0, bound);
    assert (4 * m - 1) * bound == 3 * m * bound + (m - 1) * bound;
  }

  lemma Scale(a: int, x: int, y: int)
    requires a >= 0 && x <= y
    ensures a * x <= a * y
  {
  }

  /** List scheduling: after any job the worker it went to carries at most (2 - 1/m) times
      the bound, in whatever order the jobs come. */
  lemma ListJob(g: seq<nat>, f: seq<nat>, lens: seq<int>, m: nat, bound: int, k: nat)
    requires IsGreedy(g, lens, m) && IsAssignment(f, lens, m) && NonNegative(lens) && k < |lens|
    requires Within(f, lens, m, bound)
    ensures m * (Load(g[..k], lens[..k], g[k]) + lens[k]) <= (2 * m - 1) * bound
  {
    JobFits(g, f, lens, m, bound, k);
    assert m >= 1;
    ListArithmetic(m, Load(g[..k], lens[..k], g[k]), lens[k], bound);
  }

  // ----- long jobs: credits -----

  /** A job counts twice if no job as long as p fits beside it within the bound. */
  function Credits(lens: seq<int>, p: int, bound: int): (c: seq<int>)
    ensures |c| == |lens|
    ensures forall k :: 0 <= k < |lens| ==> c[k] == if lens[k] > bound - p then 2 else 1
  {
    seq(|lens|, k requires 0 <= k < |lens| => if lens[k] > bound - p then 2 else 1)
  }

  /** What a worker's credits say about its load when all its jobs are at least p, with 3p > bound. */
  lemma {:induction false} CreditsForceLoad(f: seq<nat>, lens: seq<int>, c: seq<int>, w: nat, p: int, bound: int)
    requires |f| == |lens| == |c| && 0 <= p <= bound < 3 * p
    requires forall k :: 0 <= k < |lens| ==> lens[k] >= p && c[k] == if lens[k] > bound - p then 2 else 1
    ensures var credit, load := Load(f, c, w), Load(f, lens, w);
            && credit >= 0 && load >= 0
            && (credit == 1 ==> load >= p)
            && (credit == 2 ==> load >= 2 * p || load > bound - p)
            && (credit >= 3 ==> load > bound)
  {
    if f != [] {
      var k := |f| - 1;
      CreditsForceLoad(f[..k], lens[..k], c[..k], w, p, bound);
    }
  }

  /** What a low credit says about a worker's load. */
  lemma {:induction false} FewCredits(g: seq<nat>, lens: seq<int>, c: seq<int>, w: nat, p: int, bound: int)
    requires |g| == |lens| == |c| && p <= bound
    requires forall k :: 0 <= k < |lens| ==> c[k] == if lens[k] > bound - p then 2 else 1
    ensures var credit, load := Load(g, c, w), Load(g, lens, w);
            credit >= 0 && (credit == 0 ==> load == 0) && (credit == 1 ==> load <= bound - p)
  {
    if g != [] {
      var k := |g| - 1;
      FewCredits(g[..k], lens[..k], c[..k], w, p, bound);
    }
  }

  /** A job longer than a third of the bound, coming last among longer ones, always finds a
      worker with room: otherwise the credits handed out would exceed two per worker. */
  lemma LongJob(g: seq<nat>, f: seq<nat>, lens: seq<int>, m: nat, bound: int, k: nat)
    requires IsGreedy(g, lens, m) && IsAssignment(f, lens, m) && NonNegative(lens) && Descending(lens) && k < |lens|
    requires Within(f, lens, m, bound) && 3 * lens[k] > bound
    ensures Load(g[..k], lens[..k], g[k]) + lens[k] <= bound
  {
    var p := lens[k];
    JobFits(g, f, lens, m, bound, k);
    if Load(g[..k], lens[..k], g[k]) > bound - p {
      var c := Credits(lens[..k + 1], p, bound);
      var f' := f[..k + 1];
      forall w: nat | w < m ensures Load(f', c, w) <= 2 {
        CreditsForceLoad(f[..k + 1], lens[..k + 1], c, w, p, bound);
      }
      TotalAtMost(f[..k + 1], c, m, 2);
      TotalIsSum(f[..k + 1], c, m);
      forall w: nat | w < m ensures 2 <= Load(g[..k], c[..k], w) {
        assert LeastLoaded(g[..k], lens[..k], g[k], w);
        FewCredits(g[..k], lens[..k], c[..k], w, p, bound);
      }
      TotalAtLeast(g[..k], c[..k], m, 2);
      TotalIsSum(g[..k], c[..k], m);
      assert false;
    }
  }

  /** Longest processing time first: after any job its worker carries at most
      (4/3 - 1/(3m)) times the bound. */
  lemma LongestFirstJob(g: seq<nat>, f: seq<nat>, lens: seq<int>, m: nat, bound: int, k: nat)
    requires IsGreedy(g, lens, m) && IsAssignment(f, lens, m) && NonNegative(lens) && Descending(lens) && k < |lens|
    requires Within(f, lens, m, bound)
    ensures 3 * m * (Load(g[..k], lens[..k], g[k]) + lens[k]) <= (4 * m - 1) * bound
  {
    JobFits(g, f, lens, m, bound, k);
    var least, p := Load(g[..k], lens[..k], g[k]), lens[k];
    assert m >= 1;
    if 3 * p <= bound {
      ShortArithmetic(m, least, p, bound);
    } else {
      LongJob(g, f, lens, m, bound, k);
      FitArithmetic(m, least + p, bound);
    }
  }

  // ----- whole runs -----

  /** A worker's final load is zero or was reached by its last job. */
  lemma {:induction false} LastJob(g: seq<nat>, lens: seq<int>, w: nat) returns (k: int)
    requires |g| == |lens|
    ensures k == -1 ==> Load(g, lens, w) == 0
    ensures k != -1 ==> 0 <= k < |g| && g[k] == w && Load(g, lens, w) == Load(g[..k], lens[..k], w) + lens[k]
  {
    if g == [] {
      k := -1;
    } else {
      var n := |g| - 1;
      if g[n] == w {
        k := n;
      } else {
        k := LastJob(g[..n], lens[..n], w);
        if k != -1 { assert g[..n][..k] == g[..k] && lens[..n][..k] == lens[..k]; }
      }
    }
  }

  lemma SomeLoadNonNegative(f: seq<nat>, lens: seq<int>, m: nat, bound: int)
    requires |f| == |lens| && NonNegative(lens) && m >= 1 && Within(f, lens, m, bound)
    ensures 0 <= bound
  {
    PrefixLoad(f, lens, 0, 0);
  }

  /** Graham's list-scheduling bound for a greedy run over jobs in any order. */
  lemma ListScheduling(g: seq<nat>, f: seq<nat>, lens: seq<int>, m: nat, bound: int, w: nat)
    requires IsGreedy(g, lens, m) && IsAssignment(f, lens, m) && NonNegative(lens) && m >= 1 && w < m
    requires Within(f, lens, m, bound)
    ensures m * Load(g, lens, w) <= (2 * m - 1) * bound
  {
    SomeLoadNonNegative(f, lens, m, bound);
    var k := LastJob(g, lens, w);
    if k == -1 {
      Scale(2 * m - 1, 0, bound);
    } else {
      ListJob(g, f, lens, m, bound, k);
    }
  }

  /** Graham's bound for a greedy run over jobs in descending order. */
  lemma LongestFirst(g: seq<nat>, f: seq<nat>, lens: seq<int>, m: nat, bound: int, w: nat)
    requires IsGreedy(g, lens, m) && IsAssignment(f, lens, m) && NonNegative(lens) && Descending(lens)
    requires m >= 1 && w < m
    requires Within(f, lens, m, bound)
    ensures 3 * m * Load(g, lens, w) <= (4 * m - 1) * bound
  {
    SomeLoadNonNegative(f, lens, m, bound);
    var k := LastJob(g, lens, w);
    if k == -1 {
      Scale(4 * m - 1, 0, bound);
    } else {
      LongestFirstJob(g, f, lens, m, bound, k);
    }
  }
}
