/** The elastic cap of `zilli/infra/length_controller.py`. Lengths are integers, percentiles
    are any reals with p95 <= p99 <= max, and the factors are exact decimals. */
module LengthControl {

  const MIN_CAP: int := 1024
  const MAX_CAP: int := 131072
  const CAP_HISTORY: nat := 1000

  datatype Mode = DP | MP

  /** What the controller looks at in a batch. */
  datatype Stats = Stats(p95: real, p99: real, max: real)

  ghost predicate Describes(st: Stats, batch: seq<int>) {
    && batch != [] && st.p95 <= st.p99 <= st.max
    && (exists k :: 0 <= k < |batch| && st.max == batch[k] as real)
    && (forall k :: 0 <= k < |batch| ==> batch[k] as real <= st.max)
  }

  function Max(x: real, y: real): real {
    if x < y then y else x
  }

  /** A deque with a maximal length keeps the newest entries. */
  function Newest(s: seq<int>, n: nat): (r: seq<int>)
    ensures |r| == if |s| <= n then |s| else n
  {
    if |s| <= n then s else s[|s| - n..]
  }

  /** Those are the last ones. */
  lemma NewestAre(s: seq<int>, n: nat)
    ensures var r := Newest(s, n); |r| <= |s| && forall k :: 0 <= k < |r| ==> r[k] == s[|s| - |r| + k]
  {
  }

  predicate InRange(cap: int) {
    MIN_CAP <= cap <= MAX_CAP
  }

  /** The batch crowds the cap. */
  predicate Crowded(cap: int, st: Stats) {
    st.p95 > cap as real * 0.85
  }

  function Grown(st: Stats): int {
    var target := Max(st.p95 * 1.2, st.max * 1.05).Floor;
    if target < MAX_CAP then target else MAX_CAP
  }

  function Shrunk(cap: int): int {
    var target := (cap as real * 0.85).Floor;
    if target > MIN_CAP then target else MIN_CAP
  }

  /** The cap after a call; `history` is the number of lengths remembered by then. */
  function NextCap(cap: int, st: Stats, history: nat): int {
    if Crowded(cap, st) then Grown(st)
    else if st.p99 < cap as real * 0.3 && history > 20 && Shrunk(cap) < cap then Shrunk(cap)
    else cap
  }

  function NextMode(mode: Mode, st: Stats): Mode {
    if st.p99 > 32768.0 && mode == DP then MP
    else if st.p99 < 16384.0 && mode == MP then DP
    else mode
  }

  class LengthElasticController {
    var currentCap: int
    var parallelMode: Mode
    var history: seq<int>
    var capHistory: seq<int>
    var modeChanges: nat
    const historySize: nat

    ghost predicate Valid()
      reads this
    {
      InRange(currentCap) && |history| <= historySize && |capHistory| <= CAP_HISTORY
      && forall k :: 0 <= k < |capHistory| ==> InRange(capHistory[k])
    }

    constructor (historySize: nat)
      ensures Valid() && currentCap == 8192 && parallelMode == DP && history == [] && capHistory == []
      ensures modeChanges == 0 && this.historySize == historySize
    {
      currentCap, parallelMode, history, capHistory, modeChanges := 8192, DP, [], [], 0;
      this.historySize := historySize;
    }

    method Adapt(batch: seq<int>, st: Stats)
      requires Valid() && (batch != [] ==> Describes(st, batch))
      modifies this
      ensures Valid()
      ensures batch == [] ==> unchanged(this)
      ensures batch != [] ==>
                && history == Newest(old(history) + batch, historySize)
                && currentCap == NextCap(old(currentCap), st, |history|)
                && capHistory == Newest(old(capHistory) + [currentCap], CAP_HISTORY)
                && parallelMode == NextMode(old(parallelMode), st)
                && modeChanges == old(modeChanges) + (if parallelMode != old(parallelMode) then 1 else 0)
    {
      if batch == [] { return; }
      history := Newest(history + batch, historySize);
      NextInRange(currentCap, st, |history|);
      if st.p95 > currentCap as real * 0.85 {
        var target := Max(st.p95 * 1.2, st.max * 1.05);
        currentCap := if target.Floor < MAX_CAP then target.Floor else MAX_CAP;
      } else if st.p99 < currentCap as real * 0.3 && |history| > 20 {
        var shrunk := (currentCap as real * 0.85).Floor;
        var newCap := if shrunk > MIN_CAP then shrunk else MIN_CAP;
        if newCap < currentCap { currentCap := newCap; }
      }
      if st.p99 > 32768.0 && parallelMode == DP {
        parallelMode, modeChanges := MP, modeChanges + 1;
      } else if st.p99 < 16384.0 && parallelMode == MP {
        parallelMode, modeChanges := DP, modeChanges + 1;
      }
      capHistory := Newest(capHistory + [currentCap], CAP_HISTORY);
    }
  }

  /** What a call does to the cap, in numbers. */
  lemma NextCapSpelled(cap: int, st: Stats, history: nat)
    requires InRange(cap)
    ensures 1024 <= cap <= 131072
    ensures st.p95 > cap as real * 0.85 ==>
              var grown := if st.p95 * 1.2 < st.max * 1.05 then (st.max * 1.05).Floor else (st.p95 * 1.2).Floor;
              NextCap(cap, st, history) == if grown < 131072 then grown else 131072
    ensures st.p95 <= cap as real * 0.85 && st.p99 < cap as real * 0.3 && history > 20 ==>
              var shrunk := if (cap as real * 0.85).Floor > 1024 then (cap as real * 0.85).Floor else 1024;
              NextCap(cap, st, history) == if shrunk < cap then shrunk else cap
    ensures st.p95 <= cap as real * 0.85 && (st.p99 >= cap as real * 0.3 || history <= 20) ==>
              NextCap(cap, st, history) == cap
  {
  }

  /** And to the mode. */
  lemma NextModeSpelled(mode: Mode, st: Stats)
    ensures st.p99 > 32768.0 ==> NextMode(mode, st) == MP
    ensures st.p99 < 16384.0 ==> NextMode(mode, st) == DP
    ensures 16384.0 <= st.p99 <= 32768.0 ==> NextMode(mode, st) == mode
  {
  }

  /** The cap never leaves its range, and a crowded cap is relieved or at its maximum. */
  lemma NextInRange(cap: int, st: Stats, history: nat)
    requires InRange(cap) && st.p95 <= st.p99 <= st.max
    ensures InRange(NextCap(cap, st, history))
    ensures Crowded(cap, st) ==> NextCap(cap, st, history) >= cap
    ensures Crowded(NextCap(cap, st, history), st) ==> NextCap(cap, st, history) == MAX_CAP
  {
    if Crowded(cap, st) {
      var target := Max(st.p95 * 1.2, st.max * 1.05);
      assert target >= st.p95 * 1.2 > cap as real * 1.02;
      assert target.Floor as real > target - 1.0;
      assert target > (cap as real) + 1.0;
    }
  }

  /** Repeating a batch: after the first call the cap never rises again. */
  lemma NoSecondRise(cap: int, st: Stats, h1: nat, h2: nat)
    requires InRange(cap) && st.p95 <= st.p99 <= st.max
    ensures var next := NextCap(cap, st, h1); NextCap(next, st, h2) <= next
  {
    NextInRange(cap, st, h1);
    var next := NextCap(cap, st, h1);
    if Crowded(next, st) { NextInRange(next, st, h2); }
  }

  // ----- the same batch, again and again -----

  /** The lengths remembered after n more calls with batches of b lengths. */
  function Remembered(start: nat, b: nat, size: nat, n: nat): nat {
    if n == 0 then start else
      var before := Remembered(start, b, size, n - 1);
      if before + b <= size then before + b else size
  }

  /** The cap after n calls with the same batch of b lengths. */
  function CapAfter(cap: int, st: Stats, start: nat, b: nat, size: nat, n: nat): int {
    if n == 0 then cap else NextCap(CapAfter(cap, st, start, b, size, n - 1), st, Remembered(start, b, size, n))
  }

  lemma {:induction false} CapAfterInRange(cap: int, st: Stats, start: nat, b: nat, size: nat, n: nat)
    requires InRange(cap) && st.p95 <= st.p99 <= st.max
    ensures InRange(CapAfter(cap, st, start, b, size, n))
  {
    if n > 0 {
      CapAfterInRange(cap, st, start, b, size, n - 1);
      NextInRange(CapAfter(cap, st, start, b, size, n - 1), st, Remembered(start, b, size, n));
    }
  }

  /** From the first call on the caps only fall. */
  lemma OnlyFirstRises(cap: int, st: Stats, start: nat, b: nat, size: nat, n: nat)
    requires InRange(cap) && st.p95 <= st.p99 <= st.max && n >= 1
    ensures CapAfter(cap, st, start, b, size, n + 1) <= CapAfter(cap, st, start, b, size, n)
  {
    CapAfterInRange(cap, st, start, b, size, n - 1);
    NoSecondRise(CapAfter(cap, st, start, b, size, n - 1), st, Remembered(start, b, size, n),
                 Remembered(start, b, size, n + 1));
  }

  /** After 21 calls the memory guard of the shrink branch has its final value. */
  lemma {:induction false} MemorySettles(start: nat, b: nat, size: nat, n: nat)
    requires b >= 1 && start <= size
    ensures Remembered(start, b, size, n) <= size
    ensures Remembered(start, b, size, n) >= (if n <= size then n else size)
  {
    if n > 0 { MemorySettles(start, b, size, n - 1); }
  }

  /** Once two consecutive caps agree (with the memory guard settled), all later ones do. */
  lemma {:induction false} StaysPut(cap: int, st: Stats, start: nat, b: nat, size: nat, n: nat, k: nat)
    requires b >= 1 && start <= size && n >= 21
    requires CapAfter(cap, st, start, b, size, n + 1) == CapAfter(cap, st, start, b, size, n)
    ensures CapAfter(cap, st, start, b, size, n + k) == CapAfter(cap, st, start, b, size, n)
  {
    if k >= 2 {
      StaysPut(cap, st, start, b, size, n, k - 1);
      MemorySettles(start, b, size, n + 1);
      MemorySettles(start, b, size, n + k);
    }
  }

  lemma {:induction false} Descends(cap: int, st: Stats, start: nat, b: nat, size: nat, n: nat) returns (m: nat)
    requires InRange(cap) && st.p95 <= st.p99 <= st.max && b >= 1 && start <= size && n >= 21
    ensures n <= m <= n + CapAfter(cap, st, start, b, size, n) - MIN_CAP
    ensures CapAfter(cap, st, start, b, size, m + 1) == CapAfter(cap, st, start, b, size, m)
    decreases CapAfter(cap, st, start, b, size, n)
  {
    CapAfterInRange(cap, st, start, b, size, n);
    CapAfterInRange(cap, st, start, b, size, n + 1);
    OnlyFirstRises(cap, st, start, b, size, n);
    if CapAfter(cap, st, start, b, size, n + 1) == CapAfter(cap, st, start, b, size, n) {
      m := n;
    } else {
      m := Descends(cap, st, start, b, size, n + 1);
    }
  }

  /** A repeated batch drives the cap to a fixed point in a bounded number of calls. */
  lemma ReachesFixedPoint(cap: int, st: Stats, start: nat, b: nat, size: nat) returns (m: nat)
    requires InRange(cap) && st.p95 <= st.p99 <= st.max && b >= 1 && start <= size
    ensures m <= 21 + MAX_CAP - MIN_CAP
    ensures forall n: nat :: n >= m ==> CapAfter(cap, st, start, b, size, n) == CapAfter(cap, st, start, b, size, m)
  {
    CapAfterInRange(cap, st, start, b, size, 21);
    m := Descends(cap, st, start, b, size, 21);
    forall n: nat | n >= m ensures CapAfter(cap, st, start, b, size, n) == CapAfter(cap, st, start, b, size, m) {
      StaysPut(cap, st, start, b, size, m, n - m);
    }
  }

  /** The closed form is what repeated calls compute. */
  method Repeat(c: LengthElasticController, batch: seq<int>, st: Stats, n: nat)
    requires c.Valid() && Describes(st, batch)
    modifies c
    ensures c.Valid()
    ensures c.currentCap == CapAfter(old(c.currentCap), st, |old(c.history)|, |batch|, c.historySize, n)
  {
    ghost var start, cap := |c.history|, c.currentCap;
    for i := 0 to n
      invariant c.Valid()
      invariant |c.history| == Remembered(start, |batch|, c.historySize, i)
      invariant c.currentCap == CapAfter(cap, st, start, |batch|, c.historySize, i)
    {
      c.Adapt(batch, st);
    }
  }

  /** Hysteresis: the gap between the two thresholds keeps the mode from flapping. */
  lemma ModeSettles(mode: Mode, st: Stats)
    ensures NextMode(NextMode(mode, st), st) == NextMode(mode, st)
    ensures 16384.0 <= st.p99 <= 32768.0 ==> NextMode(mode, st) == mode
  {
  }
}
