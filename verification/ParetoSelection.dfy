/** What the optimiser of `zilli/adaptive/moo.py` does with the fronts: elitist survival over
    generations, and the weighted-sum choice for a task. */
module ParetoSelection {
  import opened Common
  import opened Pareto

  function Flatten(lists: seq<seq<nat>>): seq<nat> {
    if lists == [] then [] else Flatten(lists[..|lists| - 1]) + lists[|lists| - 1]
  }

  function FirstOf(s: seq<nat>, n: nat): seq<nat> {
    if |s| < n then s else s[..n]
  }

  function Pick(pop: Population, chosen: seq<nat>): Population
    requires forall i :: i in chosen ==> i < |pop|
  {
    seq(|chosen|, k requires 0 <= k < |chosen| => assert chosen[k] in chosen; pop[chosen[k]])
  }

  ghost predicate Permutes(order: seq<nat> -> seq<nat>) {
    forall f: seq<nat> :: Elements(order(f)) == Elements(f) && (Distinct(f) ==> Distinct(order(f)))
  }

  /** Filling the next population front by front. Crowding distance only decides the order
      within a front, which is left to `order`. */
  method FillByFront(fronts: seq<seq<nat>>, size: nat, order: seq<nat> -> seq<nat>)
    returns (chosen: seq<nat>, ghost arranged: seq<seq<nat>>)
    requires Permutes(order) && forall k :: 0 <= k < |fronts| ==> Distinct(fronts[k])
    ensures chosen == FirstOf(Flatten(arranged), size)
    ensures Lists(arranged, seq(|fronts|, k requires 0 <= k < |fronts| => Elements(fronts[k])))
  {
    chosen, arranged := [], [];
    for k := 0 to |fronts|
      invariant |arranged| == k && chosen == FirstOf(Flatten(arranged), size)
      invariant forall m :: 0 <= m < k ==> Distinct(arranged[m]) && Elements(arranged[m]) == Elements(fronts[m])
    {
      var front := order(fronts[k]);
      chosen := Fill(chosen, front, size, Flatten(arranged));
      assert (arranged + [front])[..k] == arranged;
      arranged := arranged + [front];
    }
  }

  method Fill(chosen: seq<nat>, front: seq<nat>, size: nat, ghost before: seq<nat>) returns (r: seq<nat>)
    requires chosen == FirstOf(before, size)
    ensures r == FirstOf(before + front, size)
  {
    r := chosen;
    assert before + front[..0] == before;
    for m := 0 to |front|
      invariant r == FirstOf(before + front[..m], size)
    {
      assert before + front[..m + 1] == (before + front[..m]) + [front[m]];
      if |r| < size { r := r + [front[m]]; }
    }
    assert front[..|front|] == front;
  }

  // ----- flattening the fronts -----

  lemma {:induction false} FlattenPrefix(lists: seq<seq<nat>>, k: nat)
    requires k <= |lists|
    ensures |Flatten(lists[..k])| <= |Flatten(lists)| && Flatten(lists)[..|Flatten(lists[..k])|] == Flatten(lists[..k])
  {
    if k == |lists| {
      assert lists[..k] == lists;
    } else {
      var rest := lists[..|lists| - 1];
      FlattenPrefix(rest, k);
      assert rest[..k] == lists[..k];
    }
  }

  lemma {:induction false} FlattenHas(lists: seq<seq<nat>>, x: nat)
    ensures x in Flatten(lists) <==> exists k :: 0 <= k < |lists| && x in lists[k]
  {
    if lists != [] {
      var rest := lists[..|lists| - 1];
      FlattenHas(rest, x);
      assert forall k :: 0 <= k < |rest| ==> rest[k] == lists[k];
      assert x in lists[|lists| - 1] ==> exists k :: 0 <= k < |lists| && x in lists[k];
    }
  }

  lemma {:induction false} FlattenDistinct(lists: seq<seq<nat>>)
    requires forall k :: 0 <= k < |lists| ==> Distinct(lists[k])
    requires forall j, k :: 0 <= j < k < |lists| ==> Elements(lists[j]) !! Elements(lists[k])
    ensures Distinct(Flatten(lists))
  {
    if lists != [] {
      var rest, last := lists[..|lists| - 1], lists[|lists| - 1];
      FlattenDistinct(rest);
      forall x | x in Flatten(rest) ensures x !in last {
        FlattenHas(rest, x);
        var k :| 0 <= k < |rest| && x in rest[k];
        assert x in Elements(lists[k]) && Elements(lists[k]) !! Elements(last);
      }
      DistinctConcat(Flatten(rest), last);
    }
  }

  lemma DistinctConcat(s: seq<nat>, t: seq<nat>)
    requires Distinct(s) && Distinct(t) && forall x :: x in s ==> x !in t
    ensures Distinct(s + t)
  {
    forall i, j | 0 <= i < j < |s + t| ensures (s + t)[i] != (s + t)[j] {
      if i < |s| <= j { assert s[i] in s && t[j - |s|] in t; }
    }
  }

  lemma {:induction false} IndicesSize(t: Table)
    ensures |All(t)| == |t|
  {
    if t != [] {
      var rest := t[..|t| - 1];
      IndicesSize(rest);
      forall x: nat ensures x in All(t) <==> x in All(rest) + {|t| - 1} {
        if x < |t| { assert Index(t, x); }
        if x < |rest| { assert Index(rest, x); }
      }
      assert All(t) == All(rest) + {|t| - 1};
      assert |t| - 1 !in All(rest);
    }
  }

  lemma FrontsDisjoint(t: Table, j: nat, k: nat)
    requires Strict(t) && j < k < |Peel(t, All(t))|
    ensures Peel(t, All(t))[j] !! Peel(t, All(t))[k]
  {
    var fronts := Peel(t, All(t));
    forall x | x in fronts[j] && x in fronts[k] ensures false {
      FrontIs(t, All(t), j);
      var m := OneFront(t, All(t), x);
    }
  }

  /** Flattened, the arranged fronts list every index exactly once. */
  lemma FlattenedFronts(goals: Goals, pop: Population, arranged: seq<seq<nat>>)
    requires Lists(arranged, Fronts(goals, pop))
    ensures Distinct(Flatten(arranged)) && Elements(Flatten(arranged)) == All(TableOf(goals, pop))
    ensures |Flatten(arranged)| == |pop|
  {
    var t := TableOf(goals, pop);
    TableStrict(goals, pop);
    forall j, k | 0 <= j < k < |arranged| ensures Elements(arranged[j]) !! Elements(arranged[k]) {
      FrontsDisjoint(t, j, k);
    }
    FlattenDistinct(arranged);
    forall x: nat ensures x in Flatten(arranged) <==> x in All(t) {
      FlattenHas(arranged, x);
      if x in Flatten(arranged) {
        var k :| 0 <= k < |arranged| && x in arranged[k];
        assert x in Elements(arranged[k]);
        FrontIs(t, All(t), k);
      }
      if x in All(t) {
        var k := OneFront(t, All(t), x);
        assert x in Elements(arranged[k]);
      }
    }
    DistinctCount(Flatten(arranged));
    IndicesSize(t);
  }

  // ----- selection -----

  /** Selection keeps min(size, |pop|) individuals, each once, and never drops one of a
      strictly better front than one it keeps. */
  lemma SelectionByRank(goals: Goals, pop: Population, arranged: seq<seq<nat>>, size: nat)
    requires Lists(arranged, Fronts(goals, pop))
    ensures var chosen := FirstOf(Flatten(arranged), size);
            && |chosen| == (if |pop| < size then |pop| else size)
            && Distinct(chosen) && (forall i :: i in chosen ==> i < |pop|)
            && forall a: nat, b: nat, x, y ::
                 a < b < |arranged| && x in arranged[a] && y in arranged[b] && y in chosen ==> x in chosen
  {
    FlattenedFronts(goals, pop, arranged);
    var all := Flatten(arranged);
    var chosen := FirstOf(all, size);
    forall i | i in chosen ensures i < |pop| {
      assert i in all;
      assert i in Elements(all);
    }
    forall a: nat, b: nat, x, y | a < b < |arranged| && x in arranged[a] && y in arranged[b] && y in chosen
      ensures x in chosen
    {
      EarlierFrontFirst(goals, pop, arranged, a, b, x, y, |chosen|);
    }
  }

  /** A prefix of the flattened fronts that holds y holds everything of earlier fronts. */
  lemma EarlierFrontFirst(goals: Goals, pop: Population, arranged: seq<seq<nat>>, a: nat, b: nat, x: nat, y: nat,
                          n: nat)
    requires Lists(arranged, Fronts(goals, pop)) && a < b < |arranged| && x in arranged[a] && y in arranged[b]
    requires n <= |Flatten(arranged)| && y in Flatten(arranged)[..n]
    ensures x in Flatten(arranged)[..n]
  {
    var all, head := Flatten(arranged), Flatten(arranged[..b]);
    TableStrict(goals, pop);
    FlattenPrefix(arranged, b);
    FlattenHas(arranged[..b], x);
    assert arranged[..b][a] == arranged[a];
    assert x in head;
    if n < |head| {
      assert all[..n] == all[..|head|][..n];
      assert y in head;
      FlattenHas(arranged[..b], y);
      var k :| 0 <= k < b && y in arranged[..b][k];
      assert y in Elements(arranged[k]) && y in Elements(arranged[b]);
      FrontsDisjoint(TableOf(goals, pop), k, b);
      assert false;
    } else {
      assert all[..n][..|head|] == head;
    }
  }

  /** If the non-dominated front fits, every individual is kept or dominated by one kept. */
  lemma FrontCovers(goals: Goals, pop: Population, arranged: seq<seq<nat>>, size: nat, x: nat) returns (y: nat)
    requires Lists(arranged, Fronts(goals, pop)) && x < |pop|
    requires |arranged| > 0 ==> |arranged[0]| <= size
    ensures y in FirstOf(Flatten(arranged), size) && y < |pop|
    ensures y == x || Dom(goals, pop[y], pop[x])
  {
    var t := TableOf(goals, pop);
    TableStrict(goals, pop);
    FlattenedFronts(goals, pop, arranged);
    assert Index(t, x) && x in All(t);
    var k := OneFront(t, All(t), x);
    y := Champion(t, All(t), x);
    FrontIs(t, All(t), 0);
    assert All(t) - {} == All(t);
    assert y in Elements(arranged[0]);
    FirstFrontKept(arranged, size, y);
    assert y in All(t);
  }

  lemma FirstFrontKept(arranged: seq<seq<nat>>, size: nat, y: nat)
    requires |arranged| > 0 && |arranged[0]| <= size && y in arranged[0]
    ensures y in FirstOf(Flatten(arranged), size)
  {
    FlattenPrefix(arranged, 1);
    assert arranged[..1] == [arranged[0]];
    assert Flatten([arranged[0]]) == [] + arranged[0] == arranged[0];
    var all := Flatten(arranged);
    assert all[..|arranged[0]|] == arranged[0];
    var i :| 0 <= i < |arranged[0]| && arranged[0][i] == y;
    assert FirstOf(all, size)[i] == y;
  }

  /** Someone kept equals or dominates the individual x. */
  ghost predicate Covered(goals: Goals, pop: Population, chosen: seq<nat>, x: nat)
    requires x < |pop|
  {
    exists y :: y in chosen && y < |pop| && (y == x || Dom(goals, pop[y], pop[x]))
  }

  /** Everyone is kept or dominated by one kept, exactly when the non-dominated front fits. */
  lemma FrontCoversIff(goals: Goals, pop: Population, arranged: seq<seq<nat>>, size: nat)
    requires Lists(arranged, Fronts(goals, pop))
    ensures (forall x: nat :: x < |pop| ==> Covered(goals, pop, FirstOf(Flatten(arranged), size), x))
       <==> (|arranged| > 0 ==> |arranged[0]| <= size)
  {
    var chosen := FirstOf(Flatten(arranged), size);
    if |arranged| > 0 && |arranged[0]| > size {
      var x := FrontTooLarge(goals, pop, arranged, size);
      assert !Covered(goals, pop, chosen, x);
    } else {
      forall x: nat | x < |pop| ensures Covered(goals, pop, chosen, x) {
        var y := FrontCovers(goals, pop, arranged, size, x);
      }
    }
  }

  /** A dropped member of the first front has no dominator at all. */
  lemma FrontTooLarge(goals: Goals, pop: Population, arranged: seq<seq<nat>>, size: nat) returns (x: nat)
    requires Lists(arranged, Fronts(goals, pop)) && |arranged| > 0 && |arranged[0]| > size
    ensures x < |pop| && x !in FirstOf(Flatten(arranged), size)
    ensures forall y: nat :: y < |pop| ==> !Dom(goals, pop[y], pop[x])
  {
    var t, chosen := TableOf(goals, pop), FirstOf(Flatten(arranged), size);
    TableStrict(goals, pop);
    SelectionByRank(goals, pop, arranged, size);
    DistinctCount(chosen);
    DistinctCount(arranged[0]);
    if Elements(arranged[0]) <= Elements(chosen) { SubsetCount(Elements(arranged[0]), Elements(chosen)); }
    x :| x in Elements(arranged[0]) && x !in Elements(chosen);
    FrontIs(t, All(t), 0);
    assert All(t) - {} == All(t);
    assert x in NonDominated(t, All(t));
    forall y: nat | y < |pop| ensures !Dom(goals, pop[y], pop[x]) {
      assert y in All(t);
    }
  }

  // ----- generations -----

  /** One generation: the offspring bred, and the fronts of parents and offspring together in
      the order in which they are offered to the next population. */
  datatype Generation = Generation(offspring: Population, arranged: seq<seq<nat>>)

  ghost predicate Possible(goals: Goals, pop: Population, gen: Generation) {
    Lists(gen.arranged, Fronts(goals, pop + gen.offspring))
  }

  ghost function Next(goals: Goals, size: nat, pop: Population, gen: Generation): Population
    requires Possible(goals, pop, gen)
  {
    SelectionByRank(goals, pop + gen.offspring, gen.arranged, size);
    Pick(pop + gen.offspring, FirstOf(Flatten(gen.arranged), size))
  }

  ghost predicate PossibleRun(goals: Goals, size: nat, pop: Population, gens: seq<Generation>)
    decreases |gens|
  {
    gens == [] ||
        (Possible(goals, pop, gens[0]) && PossibleRun(goals, size, Next(goals, size, pop, gens[0]), gens[1..]))
  }

  ghost function Evolve(goals: Goals, size: nat, pop: Population, gens: seq<Generation>): Population
    requires PossibleRun(goals, size, pop, gens)
    decreases |gens|
  {
    if gens == [] then pop else Evolve(goals, size, Next(goals, size, pop, gens[0]), gens[1..])
  }

  /** One generation: sorting parents and offspring together, and filling front by front. */
  method NextGeneration(goals: Goals, size: nat, pop: Population, offspring: Population, order: seq<nat> -> seq<nat>)
    returns (next: Population, ghost gen: Generation)
    requires Permutes(order)
    ensures gen.offspring == offspring && Possible(goals, pop, gen) && next == Next(goals, size, pop, gen)
  {
    var combined := pop + offspring;
    if combined == [] {
      gen := Generation(offspring, []);
      return [], gen;
    }
    var fronts := FastNonDominatedSort(goals, combined);
    var chosen;
    ghost var arranged;
    chosen, arranged := FillByFront(fronts, size, order);
    assert Lists(arranged, Fronts(goals, combined));
    gen := Generation(offspring, arranged);
    SelectionByRank(goals, combined, arranged, size);
    next := Pick(combined, chosen);
  }

  /** The order of a front's members, in one population. */
  function Within(crowding: (Population, seq<nat>) -> seq<nat>, pop: Population): seq<nat> -> seq<nat> {
    front => crowding(pop, front)
  }

  /** The generations, with the offspring bred in each of them left open. Crowding orders a front
      by the population it is a front of. */
  method Optimize(goals: Goals, size: nat, initial: Population, bred: seq<Population>,
                  crowding: (Population, seq<nat>) -> seq<nat>)
    returns (pop: Population, ghost gens: seq<Generation>)
    requires forall combined :: Permutes(Within(crowding, combined))
    ensures |gens| == |bred| && forall g :: 0 <= g < |bred| ==> gens[g].offspring == bred[g]
    ensures PossibleRun(goals, size, initial, gens) && pop == Evolve(goals, size, initial, gens)
  {
    pop, gens := initial, [];
    for g := 0 to |bred|
      invariant |gens| == g && forall h :: 0 <= h < g ==> gens[h].offspring == bred[h]
      invariant PossibleRun(goals, size, initial, gens) && pop == Evolve(goals, size, initial, gens)
    {
      ghost var before, gen := pop, Generation([], []);
      assert Permutes(Within(crowding, pop + bred[g]));
      pop, gen := NextGeneration(goals, size, pop, bred[g], Within(crowding, pop + bred[g]));
      OneMore(goals, size, initial, gens, gen);
      gens := gens + [gen];
    }
  }

  lemma {:induction false} OneMore(goals: Goals, size: nat, pop: Population, gens: seq<Generation>, gen: Generation)
    requires PossibleRun(goals, size, pop, gens) && Possible(goals, Evolve(goals, size, pop, gens), gen)
    ensures PossibleRun(goals, size, pop, gens + [gen])
    ensures Evolve(goals, size, pop, gens + [gen]) == Next(goals, size, Evolve(goals, size, pop, gens), gen)
    decreases |gens|
  {
    if gens == [] {
      assert [gen][1..] == [] && [] + [gen] == [gen];
      assert PossibleRun(goals, size, Next(goals, size, pop, gen), []);
    } else {
      assert (gens + [gen])[1..] == gens[1..] + [gen];
      OneMore(goals, size, Next(goals, size, pop, gens[0]), gens[1..], gen);
    }
  }

  /** The population size is kept over any number of generations. */
  lemma {:induction false} SizeKept(goals: Goals, size: nat, pop: Population, gens: seq<Generation>)
    requires PossibleRun(goals, size, pop, gens) && |pop| == size
    ensures |Evolve(goals, size, pop, gens)| == size
    decreases |gens|
  {
    if gens != [] {
      SelectionByRank(goals, pop + gens[0].offspring, gens[0].arranged, size);
      SizeKept(goals, size, Next(goals, size, pop, gens[0]), gens[1..]);
    }
  }

  ghost predicate FrontsFit(size: nat, gens: seq<Generation>) {
    forall k :: 0 <= k < |gens| && |gens[k].arranged| > 0 ==> |gens[k].arranged[0]| <= size
  }

  /** Elitism: while the non-dominated fronts fit, whoever lived or was born at the start is
      equalled or dominated by someone alive at the end, however long the run. */
  lemma {:induction false} Elitism(goals: Goals, size: nat, pop: Population, gens: seq<Generation>, x: Solution)
    returns (y: Solution)
    requires PossibleRun(goals, size, pop, gens) && FrontsFit(size, gens)
    requires x in pop || (gens != [] && x in gens[0].offspring)
    ensures y in Evolve(goals, size, pop, gens) && (y == x || Dom(goals, y, x))
    decreases |gens|
  {
    if gens == [] {
      y := x;
    } else {
      var combined := pop + gens[0].offspring;
      var next := Next(goals, size, pop, gens[0]);
      assert x in combined;
      var i :| 0 <= i < |combined| && combined[i] == x;
      var j := FrontCovers(goals, combined, gens[0].arranged, size, i);
      var chosen := FirstOf(Flatten(gens[0].arranged), size);
      var k :| 0 <= k < |chosen| && chosen[k] == j;
      assert next[k] == combined[j];
      y := Elitism(goals, size, next, gens[1..], combined[j]);
      if y != combined[j] && combined[j] != x { DomTransitive(goals, y, combined[j], x); }
    }
  }

  // ----- the weighted-sum choice -----

  function Weight(weights: map<string, real>, name: string): real {
    if name in weights then weights[name] else 0.0
  }

  /** The score, as the source sums it: sign times weight times value, name by name. */
  ghost function Score(goals: Goals, weights: map<string, real>, names: seq<string>, s: Solution): real {
    if names == [] then 0.0 else
      var name := names[|names| - 1];
      Score(goals, weights, names[..|names| - 1], s) + Term(Weight(weights, name), Cost(goals, s, name))
  }

  function Term(w: real, cost: real): real {
    w * cost
  }

  /** k is the first candidate with the lowest score. */
  ghost predicate IsChoice(goals: Goals, weights: map<string, real>, candidates: Population, k: nat) {
    && k < |candidates|
    && (forall j :: 0 <= j < |candidates| ==>
        Score(goals, weights, goals.names, candidates[k]) <= Score(goals, weights, goals.names, candidates[j]))
    && (forall j :: 0 <= j < k ==>
        Score(goals, weights, goals.names, candidates[k]) < Score(goals, weights, goals.names, candidates[j]))
  }

  /** In terms of the objectives themselves: each name adds its weight times its value, a missing
      one of either counting as zero, for what is minimised, and takes it away for the rest. */
  lemma ScoreSpelled(goals: Goals, weights: map<string, real>, names: seq<string>, name: string, s: Solution)
    ensures Score(goals, weights, [], s) == 0.0
    ensures var w, v := if name in weights then weights[name] else 0.0,
                        if name in s.objectives then s.objectives[name] else 0.0;
            Score(goals, weights, names + [name], s)
            == Score(goals, weights, names, s) + if name in goals.minimize then w * v else -(w * v)
  {
    assert (names + [name])[..|names|] == names;
    Negated(Weight(weights, name), Value(s, name));
  }

  lemma Negated(w: real, v: real)
    ensures Term(w, -v) == -Term(w, v)
  {
  }

  /** With one objective of positive weight, the choice has its least value if it is minimised,
      its greatest otherwise, and is the first such candidate. */
  lemma OneObjectiveChoice(goals: Goals, weights: map<string, real>, candidates: Population, k: nat, name: string)
    requires goals.names == [name] && name in weights && weights[name] > 0.0 && IsChoice(goals, weights, candidates, k)
    ensures forall j :: 0 <= j < |candidates| ==>
              var x, y := if name in candidates[k].objectives then candidates[k].objectives[name] else 0.0,
                          if name in candidates[j].objectives then candidates[j].objectives[name] else 0.0;
              && (if name in goals.minimize then x <= y else x >= y)
              && (j < k ==> x != y)
  {
    forall j | 0 <= j < |candidates|
      ensures var x, y := Value(candidates[k], name), Value(candidates[j], name);
              && (if name in goals.minimize then x <= y else x >= y)
              && (j < k ==> x != y)
    {
      OneScore(goals, weights, candidates[k], name);
      OneScore(goals, weights, candidates[j], name);
      TermApart(weights[name], Value(candidates[k], name), Value(candidates[j], name));
    }
  }

  lemma OneScore(goals: Goals, weights: map<string, real>, s: Solution, name: string)
    requires goals.names == [name] && name in weights
    ensures var t := Term(weights[name], Value(s, name));
            Score(goals, weights, goals.names, s) == if name in goals.minimize then t else -t
  {
    ScoreSpelled(goals, weights, [], name, s);
    assert [] + [name] == goals.names;
  }

  lemma TermApart(w: real, x: real, y: real)
    requires w > 0.0
    ensures Term(w, x) < Term(w, y) <==> x < y
    ensures Term(w, x) == Term(w, y) <==> x == y
  {
    if x < y { assert w * (y - x) > 0.0; }
    if y < x { assert w * (x - y) > 0.0; }
  }

  method ScoreOf(goals: Goals, weights: map<string, real>, s: Solution) returns (score: real)
    ensures score == Score(goals, weights, goals.names, s)
  {
    score := 0.0;
    for i := 0 to |goals.names|
      invariant score == Score(goals, weights, goals.names[..i], s)
    {
      var name := goals.names[i];
      var sign := if name !in goals.minimize then -1.0 else 1.0;
      assert goals.names[..i + 1][..i] == goals.names[..i];
      score := score + sign * Weight(weights, name) * Value(s, name);
    }
    assert goals.names[..|goals.names|] == goals.names;
  }

  datatype Choice = NoCandidates | Chosen(solution: Solution)

  /** Without explicit weights all objectives weigh the same. */
  function DefaultWeights(goals: Goals): map<string, real> {
    map name | name in goals.names :: 1.0 / (|goals.names| as real)
  }

  datatype Weights = Default | Given(weights: map<string, real>)

  function Resolve(goals: Goals, w: Weights): map<string, real> {
    match w
    case Default => DefaultWeights(goals)
    case Given(weights) => weights
  }

  method SelectForTask(goals: Goals, candidates: Population, w: Weights) returns (r: Choice)
    ensures r.NoCandidates? <==> candidates == []
    ensures candidates != [] ==>
              exists k: nat :: IsChoice(goals, Resolve(goals, w), candidates, k) && r == Chosen(candidates[k])
  {
    if candidates == [] { return NoCandidates; }
    var weights := Resolve(goals, w);
    var best := 0;
    var lowest := ScoreOf(goals, weights, candidates[0]);
    for i := 1 to |candidates|
      invariant 0 <= best < i && lowest == Score(goals, weights, goals.names, candidates[best])
      invariant forall j :: 0 <= j < i ==> lowest <= Score(goals, weights, goals.names, candidates[j])
      invariant forall j :: 0 <= j < best ==> lowest < Score(goals, weights, goals.names, candidates[j])
    {
      var score := ScoreOf(goals, weights, candidates[i]);
      if score < lowest { best, lowest := i, score; }
    }
    assert IsChoice(goals, weights, candidates, best);
    return Chosen(candidates[best]);
  }

  ghost predicate AllPositive(goals: Goals, weights: map<string, real>) {
    forall name :: name in goals.names ==> Weight(weights, name) > 0.0
  }

  /** With positive weights a candidate that is no worse scores no higher, and strictly lower
      if it is better in some objective. */
  lemma {:induction false} ScoreMonotone(goals: Goals, weights: map<string, real>, names: seq<string>, a: Solution,
                                         b: Solution) returns (strict: bool)
    requires forall name :: name in names ==>
               Weight(weights, name) > 0.0 && Cost(goals, a, name) <= Cost(goals, b, name)
    ensures Score(goals, weights, names, a) <= Score(goals, weights, names, b)
    ensures strict <==> exists name :: name in names && Cost(goals, a, name) < Cost(goals, b, name)
    ensures strict ==> Score(goals, weights, names, a) < Score(goals, weights, names, b)
  {
    strict := false;
    if names != [] {
      var rest, name := names[..|names| - 1], names[|names| - 1];
      assert names == rest + [name];
      var s := ScoreMonotone(goals, weights, rest, a, b);
      var x, y := Cost(goals, a, name), Cost(goals, b, name);
      Scaled(Weight(weights, name), x, y);
      strict := s || x < y;
    }
  }

  lemma Scaled(w: real, x: real, y: real)
    requires w > 0.0 && x <= y
    ensures Term(w, x) <= Term(w, y) && (x < y ==> Term(w, x) < Term(w, y))
  {
    if x < y { assert w * (y - x) > 0.0; }
  }

  /** With positive weights nobody among the candidates dominates the chosen one. */
  lemma PositiveWeightsSafe(goals: Goals, weights: map<string, real>, candidates: Population, k: nat, j: nat)
    requires AllPositive(goals, weights) && IsChoice(goals, weights, candidates, k) && j < |candidates|
    ensures !Dom(goals, candidates[j], candidates[k])
  {
    if Dom(goals, candidates[j], candidates[k]) {
      var strict := ScoreMonotone(goals, weights, goals.names, candidates[j], candidates[k]);
    }
  }

  lemma {:induction false} OneObjective(goals: Goals, weights: map<string, real>, names: seq<string>, s: Solution,
                                        name: string)
    requires forall other :: other != name ==> Cost(goals, s, other) == 0.0
    requires Weight(weights, name) <= 0.0 && Cost(goals, s, name) == -1.0
    ensures Score(goals, weights, names, s) >= 0.0
  {
    if names != [] {
      OneObjective(goals, weights, names[..|names| - 1], s, name);
    }
  }

  lemma {:induction false} NoObjective(goals: Goals, weights: map<string, real>, names: seq<string>, s: Solution)
    requires forall other :: Cost(goals, s, other) == 0.0
    ensures Score(goals, weights, names, s) == 0.0
  {
    if names != [] { NoObjective(goals, weights, names[..|names| - 1], s); }
  }

  /** A weight that is zero, negative or missing lets a dominated candidate win: of two that
      differ in that objective only, the worse one when it comes first. */
  lemma BadWeightFails(goals: Goals, weights: map<string, real>, name: string) returns (candidates: Population)
    requires name in goals.names && Weight(weights, name) <= 0.0
    ensures |candidates| == 2 && IsChoice(goals, weights, candidates, 0)
    ensures Dom(goals, candidates[1], candidates[0])
  {
    var a := Solution("a", map[]);
    var b := Solution("b", map[name := if name in goals.minimize then -1.0 else 1.0]);
    candidates := [a, b];
    NoObjective(goals, weights, goals.names, a);
    OneObjective(goals, weights, goals.names, b, name);
    assert Better(goals, b, a) by { assert Cost(goals, b, name) < Cost(goals, a, name); }
  }

  /** Whatever the candidates, the chosen one is in their first front. */
  ghost predicate AlwaysNonDominated(goals: Goals, weights: map<string, real>) {
    forall candidates, k: nat :: IsChoice(goals, weights, candidates, k) ==> Dominators(goals, candidates, k) == {}
  }

  /** That holds exactly when every objective has a positive weight. */
  lemma SafeExactlyForPositiveWeights(goals: Goals, weights: map<string, real>)
    ensures AllPositive(goals, weights) <==> AlwaysNonDominated(goals, weights)
  {
    if AllPositive(goals, weights) {
      forall candidates, k: nat | IsChoice(goals, weights, candidates, k)
        ensures Dominators(goals, candidates, k) == {}
      {
        forall j: nat | j < |candidates| ensures !Dom(goals, candidates[j], candidates[k]) {
          PositiveWeightsSafe(goals, weights, candidates, k, j);
        }
      }
    } else {
      var name :| name in goals.names && Weight(weights, name) <= 0.0;
      var candidates := BadWeightFails(goals, weights, name);
      assert 1 in Dominators(goals, candidates, 0);
    }
  }

  lemma DefaultIsSafe(goals: Goals)
    ensures AlwaysNonDominated(goals, DefaultWeights(goals))
    ensures forall name :: name in goals.names ==>
              name in DefaultWeights(goals) && DefaultWeights(goals)[name] == 1.0 / (|goals.names| as real)
  {
    SafeExactlyForPositiveWeights(goals, DefaultWeights(goals));
  }
}
