/** The dispatcher of `zilli/infra/length_controller.py`: round-robin, and greedy assignment of
    the longest sequences first. */
module Dispatcher {
  import opened Scheduling

  datatype Job<T> = Job(item: T, length: int, index: nat)

  function Lengths<T>(jobs: seq<Job<T>>): (r: seq<int>)
    ensures |r| == |jobs| && forall k :: 0 <= k < |jobs| ==> r[k] == jobs[k].length
  {
    seq(|jobs|, k requires 0 <= k < |jobs| => jobs[k].length)
  }

  function Items<T>(jobs: seq<Job<T>>): (r: seq<T>)
    ensures |r| == |jobs| && forall k :: 0 <= k < |jobs| ==> r[k] == jobs[k].item
  {
    seq(|jobs|, k requires 0 <= k < |jobs| => jobs[k].item)
  }

  function Min(a: nat, b: nat): nat {
    if a < b then a else b
  }

  /** `zip(data, sequence_lengths)`: the shorter list decides how many pairs there are. */
  function Zip<T>(data: seq<T>, lens: seq<int>): (r: seq<Job<T>>)
    ensures |r| == Min(|data|, |lens|)
    ensures forall k :: 0 <= k < |r| ==> r[k] == Job(data[k], lens[k], k)
  {
    seq(Min(|data|, |lens|), k requires 0 <= k < Min(|data|, |lens|) => Job(data[k], lens[k], k))
  }

  // ----- chunks -----

  /** The items sent to worker w, in the order in which they were sent. */
  function Chunk<T>(items: seq<T>, target: seq<nat>, w: nat): seq<T>
    requires |items| == |target|
  {
    if items == [] then [] else
      var k := |items| - 1;
      Chunk(items[..k], target[..k], w) + (if target[k] == w then [items[k]] else [])
  }

  ghost predicate AreChunks<T>(chunks: seq<seq<T>>, items: seq<T>, target: seq<nat>, m: nat) {
    && |items| == |target| && |chunks| == m
    && (forall k :: 0 <= k < |target| ==> target[k] < m)
    && (forall w :: 0 <= w < m ==> chunks[w] == Chunk(items, target, w))
  }

  lemma ChunkStep<T>(chunks: seq<seq<T>>, items: seq<T>, target: seq<nat>, m: nat, x: T, w: nat)
    requires AreChunks(chunks, items, target, m) && w < m
    ensures AreChunks(chunks[w := chunks[w] + [x]], items + [x], target + [w], m)
  {
    assert (items + [x])[..|items|] == items && (target + [w])[..|target|] == target;
    forall v | 0 <= v < m ensures chunks[w := chunks[w] + [x]][v] == Chunk(items + [x], target + [w], v) {
      assert chunks[v] + [] == chunks[v];
    }
  }

  /** The places below k whose items go to worker w. */
  ghost function SentTo(target: seq<nat>, k: nat, w: nat): set<int>
    requires k <= |target|
  {
    set i | 0 <= i < k && target[i] == w
  }

  lemma SentToPrefix(target: seq<nat>, n: nat, k: nat, w: nat)
    requires k <= n <= |target|
    ensures SentTo(target[..n], k, w) == SentTo(target, k, w)
  {
  }

  lemma SentToNext(target: seq<nat>, k: nat, w: nat)
    requires k < |target|
    ensures |SentTo(target, k + 1, w)| == |SentTo(target, k, w)| + (if target[k] == w then 1 else 0)
  {
    assert SentTo(target, k + 1, w) == SentTo(target, k, w) + (if target[k] == w then {k} else {});
  }

  lemma {:induction false} ChunkLength<T>(items: seq<T>, target: seq<nat>, w: nat)
    requires |items| == |target|
    ensures |Chunk(items, target, w)| == |SentTo(target, |target|, w)|
  {
    if items != [] {
      var n := |items| - 1;
      ChunkLength(items[..n], target[..n], w);
      SentToPrefix(target, n, n, w);
      SentToNext(target, n, w);
    }
  }

  /** An item sits in its worker's chunk behind exactly the items sent there before it, and the
      chunk holds nothing else. */
  lemma {:induction false} ChunkPlace<T>(items: seq<T>, target: seq<nat>, k: nat)
    requires |items| == |target| && k < |items|
    ensures var w := target[k];
            var before := |set i | 0 <= i < k && target[i] == w|;
            && |Chunk(items, target, w)| == |set i | 0 <= i < |target| && target[i] == w|
            && before < |Chunk(items, target, w)| && Chunk(items, target, w)[before] == items[k]
    decreases |items|
  {
    var n, w := |items| - 1, target[k];
    ChunkLength(items, target, w);
    ChunkLength(items[..n], target[..n], w);
    SentToPrefix(target, n, n, w);
    SentToNext(target, n, w);
    if k < n {
      ChunkPlace(items[..n], target[..n], k);
      SentToPrefix(target, n, k, w);
    }
    assert (set i | 0 <= i < |target| && target[i] == w) == SentTo(target, |target|, w);
    assert (set i | 0 <= i < k && target[i] == w) == SentTo(target, k, w);
    if k < n { assert (set i | 0 <= i < k && target[..n][i] == w) == SentTo(target[..n], k, w); }
  }

  ghost function Concat<T>(chunks: seq<seq<T>>): seq<T> {
    if chunks == [] then [] else Concat(chunks[..|chunks| - 1]) + chunks[|chunks| - 1]
  }

  lemma {:induction false} ConcatGrows<T>(chunks: seq<seq<T>>, w: nat, x: T)
    requires w < |chunks|
    ensures multiset(Concat(chunks[w := chunks[w] + [x]])) == multiset(Concat(chunks)) + multiset{x}
    decreases |chunks|
  {
    var n := |chunks| - 1;
    var grown := chunks[w := chunks[w] + [x]];
    if w == n {
      assert grown[..n] == chunks[..n];
      assert Concat(grown) == Concat(chunks) + [x];
    } else {
      ConcatGrows(chunks[..n], w, x);
      assert grown[..n] == chunks[..n][w := chunks[w] + [x]] && grown[n] == chunks[n];
      assert multiset(Concat(grown)) == multiset(Concat(grown[..n])) + multiset(chunks[n]);
    }
  }

  lemma ConcatShrinks<T>(chunks: seq<seq<T>>, w: nat, rest: seq<T>, x: T)
    requires w < |chunks| && chunks[w] == rest + [x]
    ensures multiset(Concat(chunks)) == multiset(Concat(chunks[w := rest])) + multiset{x}
  {
    var smaller := chunks[w := rest];
    ConcatGrows(smaller, w, x);
    assert smaller[w := smaller[w] + [x]] == chunks;
  }

  lemma {:induction false} ConcatEmpty<T>(chunks: seq<seq<T>>)
    requires forall w :: 0 <= w < |chunks| ==> chunks[w] == []
    ensures Concat(chunks) == []
  {
    if chunks != [] { ConcatEmpty(chunks[..|chunks| - 1]); }
  }

  /** No item is lost or invented: the chunks together hold exactly the items sent. */
  lemma {:induction false} ChunksKeepItems<T>(chunks: seq<seq<T>>, items: seq<T>, target: seq<nat>, m: nat)
    requires AreChunks(chunks, items, target, m)
    ensures multiset(Concat(chunks)) == multiset(items)
    decreases |items|
  {
    if items == [] {
      ConcatEmpty(chunks);
    } else {
      var k := |items| - 1;
      var w := target[k];
      var smaller := chunks[w := Chunk(items[..k], target[..k], w)];
      ChunksKeepItems(smaller, items[..k], target[..k], m);
      ConcatShrinks(chunks, w, Chunk(items[..k], target[..k], w), items[k]);
      SplitLast(items);
    }
  }

  lemma SplitLast<T>(s: seq<T>)
    requires s != []
    ensures multiset(s) == multiset(s[..|s| - 1]) + multiset{s[|s| - 1]}
  {
    assert s == s[..|s| - 1] + [s[|s| - 1]];
  }

  // ----- sorting, longest first -----

  /** Longest first, equal lengths in their original order. */
  ghost predicate StableDescending<T>(jobs: seq<Job<T>>) {
    forall i, j :: 0 <= i < j < |jobs| ==> Precedes(jobs[i], jobs[j])
  }

  predicate Precedes<T>(x: Job<T>, y: Job<T>) {
    x.length > y.length || (x.length == y.length && x.index < y.index)
  }

  method SortLongestFirst<T>(jobs: seq<Job<T>>) returns (sorted: seq<Job<T>>)
    requires forall k :: 0 <= k < |jobs| ==> jobs[k].index == k
    ensures StableDescending(sorted) && multiset(sorted) == multiset(jobs)
  {
    sorted := [];
    for k := 0 to |jobs|
      invariant StableDescending(sorted) && multiset(sorted) == multiset(jobs[..k])
      invariant forall x :: x in sorted ==> x.index < k
    {
      assert jobs[..k + 1] == jobs[..k] + [jobs[k]];
      sorted := InsertByLength(sorted, jobs[k]);
    }
    assert jobs[..|jobs|] == jobs;
  }

  method InsertByLength<T>(sorted: seq<Job<T>>, job: Job<T>) returns (r: seq<Job<T>>)
    requires StableDescending(sorted) && forall x :: x in sorted ==> x.index < job.index
    ensures StableDescending(r) && multiset(r) == multiset(sorted) + multiset{job}
    ensures forall x :: x in r ==> x.index <= job.index
  {
    var i := |sorted|;
    while i > 0 && sorted[i - 1].length < job.length
      invariant 0 <= i <= |sorted| && forall j :: i <= j < |sorted| ==> sorted[j].length < job.length
    {
      i := i - 1;
    }
    StopsRight(sorted, job, i);
    InsertJob(sorted[..i], job, sorted[i..]);
    r := sorted[..i] + [job] + sorted[i..];
  }

  lemma InsertJob<T>(front: seq<Job<T>>, job: Job<T>, back: seq<Job<T>>)
    requires StableDescending(front + back)
    requires forall x :: x in front ==> Precedes(x, job)
    requires forall y :: y in back ==> Precedes(job, y)
    ensures StableDescending(front + [job] + back)
    ensures multiset(front + [job] + back) == multiset(front + back) + multiset{job}
    ensures forall x :: x in front + [job] + back ==> x == job || x in front + back
  {
    var all := front + back;
    forall x, y | x in front && y in back ensures Precedes(x, y) {}
    forall i, j | 0 <= i < j < |front|
      ensures Precedes(front[i], front[j])
    {
      assert all[i] == front[i] && all[j] == front[j];
    }
    forall i, j | 0 <= i < j < |back| ensures Precedes(back[i], back[j]) {
      assert all[|front| + i] == back[i] && all[|front| + j] == back[j];
    }
    JoinDescending(front, [job]);
    JoinDescending(front + [job], back);
  }

  /** Where the insertion stops, everything before is at least as long. */
  lemma StopsRight<T>(sorted: seq<Job<T>>, job: Job<T>, i: nat)
    requires StableDescending(sorted) && i <= |sorted| && (i > 0 ==> sorted[i - 1].length >= job.length)
    requires forall x :: x in sorted ==> x.index < job.index
    requires forall j :: i <= j < |sorted| ==> sorted[j].length < job.length
    ensures sorted[..i] + sorted[i..] == sorted
    ensures forall x :: x in sorted[..i] ==> Precedes(x, job)
    ensures forall y :: y in sorted[i..] ==> Precedes(job, y)
  {
    forall j | 0 <= j < i ensures Precedes(sorted[j], job) {
      if j < i - 1 { assert Precedes(sorted[j], sorted[i - 1]); }
    }
  }

  lemma JoinDescending<T>(a: seq<Job<T>>, b: seq<Job<T>>)
    requires StableDescending(a) && StableDescending(b)
    requires forall x, y :: x in a && y in b ==> Precedes(x, y)
    ensures StableDescending(a + b)
  {
  }

  // ----- the two dispatch methods -----

  /** Entry k of chunk w exists and is x. */
  ghost predicate At<T>(chunks: seq<seq<T>>, w: int, k: int, x: T) {
    0 <= w < |chunks| && 0 <= k < |chunks[w]| && chunks[w][k] == x
  }

  /** Item i goes to worker i mod m; sizes differ by at most one. */
  method Dispatch<T>(data: seq<T>, numWorkers: int) returns (chunks: seq<seq<T>>, ghost target: seq<nat>)
    requires numWorkers >= 1
    ensures AreChunks(chunks, data, target, numWorkers)
    ensures forall i :: 0 <= i < |data| ==> target[i] == i % numWorkers
    ensures forall i :: 0 <= i < |data| ==> At(chunks, i % numWorkers, i / numWorkers, data[i])
    ensures forall v, w :: 0 <= v < w < numWorkers ==> |chunks[w]| <= |chunks[v]| <= |chunks[w]| + 1
  {
    chunks, target := seq(numWorkers, _ => []), [];
    ghost var rounds := 0;
    for i := 0 to |data|
      invariant AreChunks(chunks, data[..i], target, numWorkers) && rounds == i / numWorkers
      invariant forall j :: 0 <= j < i ==> At(chunks, j % numWorkers, j / numWorkers, data[j])
      invariant forall j :: 0 <= j < i ==> target[j] == j % numWorkers
      invariant forall w :: 0 <= w < numWorkers ==> |chunks[w]| == if w < i % numWorkers then rounds + 1 else rounds
    {
      var w := i % numWorkers;
      NextPlace(i, numWorkers);
      ChunkStep(chunks, data[..i], target, numWorkers, data[i], w);
      assert data[..i + 1] == data[..i] + [data[i]];
      chunks := chunks[w := chunks[w] + [data[i]]];
      target := target + [w];
      if w + 1 == numWorkers { rounds := rounds + 1; }
    }
    assert data[..|data|] == data;
  }

  lemma NextPlace(i: int, m: int)
    requires m >= 1 && i >= 0
    ensures 0 <= i % m < m && (i + 1) % m == if i % m + 1 == m then 0 else i % m + 1
    ensures (i + 1) / m == if i % m + 1 == m then i / m + 1 else i / m
  {
    var q, r := i / m, i % m;
    assert i == q * m + r;
    if r + 1 == m {
      assert i + 1 == (q + 1) * m + 0;
      Remainder(i + 1, m, q + 1, 0);
    } else {
      Remainder(i + 1, m, q, r + 1);
    }
  }

  lemma Remainder(i: int, m: int, q: int, r: int)
    requires m >= 1 && 0 <= r < m && i == q * m + r
    ensures i % m == r && i / m == q
  {
    var d := i / m - q;
    assert i == (i / m) * m + i % m;
    assert d * m == r - i % m;
    if d >= 1 { Scale(m, 1, d); }
    if d <= -1 { Scale(m, d, -1); }
  }

  /** The worker with the smallest load, the first one if there are several. */
  method ArgMin(loads: seq<int>) returns (w: nat)
    requires loads != []
    ensures w < |loads| && forall v :: 0 <= v < |loads| ==> loads[w] <= loads[v] && (v < w ==> loads[w] < loads[v])
  {
    w := 0;
    for v := 1 to |loads|
      invariant w < v && forall u :: 0 <= u < v ==> loads[w] <= loads[u] && (u < w ==> loads[w] < loads[u])
    {
      if loads[v] < loads[w] { w := v; }
    }
  }

  /** Longest sequences first, each to the least loaded worker; without lengths, round-robin. */
  method DispatchLayoutAware<T>(data: seq<T>, numWorkers: int, lens: seq<int>)
    returns (chunks: seq<seq<T>>, ghost sorted: seq<Job<T>>, ghost target: seq<nat>)
    requires numWorkers >= 1
    ensures data == [] || lens == [] ==> AreChunks(chunks, data, target, numWorkers)
    ensures data == [] || lens == [] ==> forall i :: 0 <= i < |data| ==> target[i] == i % numWorkers
    ensures data != [] && lens != [] ==>
              && StableDescending(sorted) && multiset(sorted) == multiset(Zip(data, lens))
              && (forall i, j :: 0 <= i < j < |sorted| ==>
                    || sorted[i].length > sorted[j].length
                    || (sorted[i].length == sorted[j].length && sorted[i].index < sorted[j].index))
              && AreChunks(chunks, Items(sorted), target, numWorkers)
              && IsGreedy(target, Lengths(sorted), numWorkers)
  {
    sorted := [];
    if data == [] || lens == [] {
      chunks, target := Dispatch(data, numWorkers);
      return;
    }
    var indexed := SortLongestFirst(Zip(data, lens));
    DescendingSpelled(indexed);
    chunks, target := SendAll(indexed, numWorkers);
    sorted := indexed;
  }

  lemma DescendingSpelled<T>(jobs: seq<Job<T>>)
    requires StableDescending(jobs)
    ensures forall i, j :: 0 <= i < j < |jobs| ==>
              || jobs[i].length > jobs[j].length
              || (jobs[i].length == jobs[j].length && jobs[i].index < jobs[j].index)
  {
    assert forall i, j :: 0 <= i < j < |jobs| ==> Precedes(jobs[i], jobs[j]);
  }

  /** Each job in turn goes to the worker that is least loaded by then. */
  method SendAll<T>(indexed: seq<Job<T>>, numWorkers: int) returns (chunks: seq<seq<T>>, ghost target: seq<nat>)
    requires numWorkers >= 1
    ensures AreChunks(chunks, Items(indexed), target, numWorkers)
    ensures IsGreedy(target, Lengths(indexed), numWorkers)
  {
    var loads: seq<int> := seq(numWorkers, _ => 0);
    chunks, target := seq(numWorkers, _ => []), [];
    ghost var items, lengths := Items(indexed), Lengths(indexed);
    for k := 0 to |indexed|
      invariant |loads| == numWorkers && AreChunks(chunks, items[..k], target, numWorkers)
      invariant IsGreedy(target, lengths[..k], numWorkers)
      invariant forall w :: 0 <= w < numWorkers ==> loads[w] == Load(target, lengths[..k], w)
    {
      var w := ArgMin(loads);
      ChunkStep(chunks, items[..k], target, numWorkers, indexed[k].item, w);
      GreedyStep(target, lengths, numWorkers, k, w, loads);
      assert items[..k + 1] == items[..k] + [items[k]];
      chunks := chunks[w := chunks[w] + [indexed[k].item]];
      loads := loads[w := loads[w] + indexed[k].length];
      target := target + [w];
    }
    assert items[..|indexed|] == items && lengths[..|indexed|] == lengths;
  }

  lemma GreedyStep(target: seq<nat>, lengths: seq<int>, m: nat, k: nat, w: nat, loads: seq<int>)
    requires k < |lengths| && |target| == k && w < m && |loads| == m && IsGreedy(target, lengths[..k], m)
    requires forall v :: 0 <= v < m ==> loads[v] == Load(target, lengths[..k], v)
    requires forall v :: 0 <= v < m ==> loads[w] <= loads[v] && (v < w ==> loads[w] < loads[v])
    ensures IsGreedy(target + [w], lengths[..k + 1], m)
    ensures forall v: nat :: v < m ==>
              Load(target + [w], lengths[..k + 1], v) == if v == w then loads[v] + lengths[k] else loads[v]
  {
    var target', lengths' := target + [w], lengths[..k + 1];
    assert target'[..k] == target && lengths'[..k] == lengths[..k];
    forall j: int, v: nat | 0 <= j < |target'| && v < m
      ensures LeastLoaded(target'[..j], lengths'[..j], target'[j], v)
    {
      if j < k {
        assert target'[..j] == target[..j] && lengths'[..j] == lengths[..k][..j];
        assert LeastLoaded(target[..j], lengths[..k][..j], target[j], v);
      }
    }
  }

  // ----- comparing with an arbitrary assignment of the original items -----

  /** The load of worker w when job j goes to f[j.index]. */
  ghost function LoadOver<T>(jobs: seq<Job<T>>, f: seq<nat>, w: nat): int {
    if jobs == [] then 0 else LoadOver(jobs[..|jobs| - 1], f, w) + Share(jobs[|jobs| - 1], f, w)
  }

  ghost function Share<T>(job: Job<T>, f: seq<nat>, w: nat): int {
    if job.index < |f| && f[job.index] == w then job.length else 0
  }

  lemma {:induction false} LoadOverRemove<T>(jobs: seq<Job<T>>, f: seq<nat>, w: nat, i: nat)
    requires i < |jobs|
    ensures LoadOver(jobs, f, w) == LoadOver(jobs[..i] + jobs[i + 1..], f, w) + Share(jobs[i], f, w)
    decreases |jobs|
  {
    var n := |jobs| - 1;
    var shorter := jobs[..i] + jobs[i + 1..];
    if i == n {
      assert shorter == jobs[..n];
    } else {
      var inner := jobs[..n];
      LoadOverRemove(inner, f, w, i);
      assert shorter[..n - 1] == inner[..i] + inner[i + 1..];
      assert shorter[n - 1] == jobs[n];
    }
  }

  lemma SplitOff<T>(s: seq<T>, i: nat)
    requires i < |s|
    ensures multiset(s) == multiset(s[..i] + s[i + 1..]) + multiset{s[i]}
  {
    assert s == s[..i] + [s[i]] + s[i + 1..];
  }

  /** Reordering the jobs changes no load. */
  lemma {:induction false} LoadOverReordered<T>(a: seq<Job<T>>, b: seq<Job<T>>, f: seq<nat>, w: nat)
    requires multiset(a) == multiset(b)
    ensures LoadOver(a, f, w) == LoadOver(b, f, w)
    decreases |a|
  {
    if a == [] {
      assert |b| == |multiset(b)| == 0;
    } else {
      var n := |a| - 1;
      var i := MatchLast(a, b);
      LoadOverReordered(a[..n], b[..i] + b[i + 1..], f, w);
      LoadOverRemove(b, f, w, i);
    }
  }

  /** Where the last element of a sits in a reordering of a. */
  lemma MatchLast<T>(a: seq<T>, b: seq<T>) returns (i: nat)
    requires a != [] && multiset(a) == multiset(b)
    ensures i < |b| && b[i] == a[|a| - 1]
    ensures multiset(a[..|a| - 1]) == multiset(b[..i] + b[i + 1..])
    ensures a[..|a| - 1] + a[|a|..] == a[..|a| - 1]
  {
    var n := |a| - 1;
    SplitOff(a, n);
    assert a[..n] + a[n + 1..] == a[..n];
    assert a[n] in multiset(b);
    i :| 0 <= i < |b| && b[i] == a[n];
    SplitOff(b, i);
    Cancel(multiset(a[..n]), multiset(b[..i] + b[i + 1..]), a[n]);
  }

  lemma Cancel<T>(x: multiset<T>, y: multiset<T>, e: T)
    requires x + multiset{e} == y + multiset{e}
    ensures x == y
  {
    assert x == (x + multiset{e}) - multiset{e};
    assert y == (y + multiset{e}) - multiset{e};
  }

  lemma ItemsRemove<T>(jobs: seq<Job<T>>, i: nat)
    requires i < |jobs|
    ensures multiset(Items(jobs)) == multiset(Items(jobs[..i] + jobs[i + 1..])) + multiset{jobs[i].item}
  {
    SplitOff(Items(jobs), i);
    assert Items(jobs[..i] + jobs[i + 1..]) == Items(jobs)[..i] + Items(jobs)[i + 1..];
  }

  lemma {:induction false} ItemsReordered<T>(a: seq<Job<T>>, b: seq<Job<T>>)
    requires multiset(a) == multiset(b)
    ensures multiset(Items(a)) == multiset(Items(b))
    decreases |a|
  {
    if a == [] {
      assert |b| == |multiset(b)| == 0;
    } else {
      var n := |a| - 1;
      var i := MatchLast(a, b);
      ItemsReordered(a[..n], b[..i] + b[i + 1..]);
      ItemsRemove(a, n);
      ItemsRemove(b, i);
    }
  }

  /** Every item that has a length is dispatched exactly once, and nothing else is; so nothing
      is lost exactly when there are at least as many lengths as items (or none at all, when
      the round-robin sees all of them). */
  lemma EveryItemOnce<T>(data: seq<T>, lens: seq<int>, m: nat, sorted: seq<Job<T>>, target: seq<nat>,
                         chunks: seq<seq<T>>)
    requires multiset(sorted) == multiset(Zip(data, lens)) && AreChunks(chunks, Items(sorted), target, m)
    ensures multiset(Concat(chunks)) == multiset(data[..Min(|data|, |lens|)])
    ensures multiset(Concat(chunks)) == multiset(data) <==> |data| <= |lens|
  {
    var n := Min(|data|, |lens|);
    ChunksKeepItems(chunks, Items(sorted), target, m);
    ItemsReordered(sorted, Zip(data, lens));
    assert Items(Zip(data, lens)) == data[..n];
    if n < |data| {
      assert |multiset(data[..n])| == n && |multiset(data)| == |data|;
    } else {
      assert data[..n] == data;
    }
  }

  /** The assignment f, followed along the order of the jobs. */
  ghost function Along<T>(jobs: seq<Job<T>>, f: seq<nat>): (r: seq<nat>)
    ensures |r| == |jobs|
    ensures forall k :: 0 <= k < |jobs| ==> r[k] == if jobs[k].index < |f| then f[jobs[k].index] else 0
  {
    seq(|jobs|, k requires 0 <= k < |jobs| => if jobs[k].index < |f| then f[jobs[k].index] else 0)
  }

  lemma {:induction false} LoadAlong<T>(jobs: seq<Job<T>>, f: seq<nat>, w: nat)
    requires forall k :: 0 <= k < |jobs| ==> jobs[k].index < |f|
    ensures Load(Along(jobs, f), Lengths(jobs), w) == LoadOver(jobs, f, w)
  {
    if jobs != [] {
      var n := |jobs| - 1;
      LoadAlong(jobs[..n], f, w);
      assert Along(jobs, f)[..n] == Along(jobs[..n], f);
      assert Lengths(jobs)[..n] == Lengths(jobs[..n]);
    }
  }

  /** The approximation bound. For any way f of assigning the items that have a length to m
      workers that keeps all loads within `bound`, every chunk of the dispatcher weighs at most (4/3 - 1/(3m)) times
      the bound, and already by the list-scheduling argument at most (2 - 1/m) times. */
  lemma DispatchBound<T>(data: seq<T>, lens: seq<int>, m: nat, sorted: seq<Job<T>>, target: seq<nat>,
                         f: seq<nat>, bound: int, w: nat)
    requires m >= 1 && w < m && NonNegative(lens[..Min(|data|, |lens|)])
    requires StableDescending(sorted) && multiset(sorted) == multiset(Zip(data, lens))
    requires IsGreedy(target, Lengths(sorted), m)
    requires IsAssignment(f, lens[..Min(|data|, |lens|)], m) && Within(f, lens[..Min(|data|, |lens|)], m, bound)
    ensures 3 * m * Load(target, Lengths(sorted), w) <= (4 * m - 1) * bound
    ensures m * Load(target, Lengths(sorted), w) <= (2 * m - 1) * bound
  {
    var jobs, used := Zip(data, lens), lens[..Min(|data|, |lens|)];
    assert Lengths(jobs) == used && Along(jobs, f) == f;
    forall k | 0 <= k < |sorted| ensures sorted[k].index < |f| && sorted[k].length >= 0 {
      assert sorted[k] in multiset(sorted);
      var i :| 0 <= i < |jobs| && jobs[i] == sorted[k];
    }
    var f' := Along(sorted, f);
    var lengths := Lengths(sorted);
    forall v: nat | v < m ensures Load(f', lengths, v) <= bound {
      LoadAlong(sorted, f, v);
      LoadOverReordered(sorted, jobs, f, v);
      LoadAlong(jobs, f, v);
    }
    LongestFirst(target, f', lengths, m, bound, w);
    ListScheduling(target, f', lengths, m, bound, w);
  }
}
