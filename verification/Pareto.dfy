/** The optimiser of `zilli/adaptive/moo.py`: Pareto dominance, the counting form of fast
    non-dominated sorting, elitist selection and the weighted-sum choice. Floats are reals. */
module Pareto {
  import opened Common

  datatype Solution = Solution(name: string, objectives: map<string, real>)

  /** The optimiser's settings: the objectives, in order, and those to minimise. */
  datatype Goals = Goals(names: seq<string>, minimize: set<string>)

  /** `objectives.get(name, 0.0)` */
  function Value(s: Solution, name: string): real {
    if name in s.objectives then s.objectives[name] else 0.0
  }

  /** The value of an objective turned so that smaller is better. */
  function Cost(goals: Goals, s: Solution, name: string): real {
    if name in goals.minimize then Value(s, name) else -Value(s, name)
  }

  ghost predicate NoWorse(goals: Goals, a: Solution, b: Solution) {
    forall name :: name in goals.names ==> Cost(goals, a, name) <= Cost(goals, b, name)
  }

  ghost predicate Better(goals: Goals, a: Solution, b: Solution) {
    exists name :: name in goals.names && Cost(goals, a, name) < Cost(goals, b, name)
  }

  /** Pareto dominance. */
  ghost predicate Dom(goals: Goals, a: Solution, b: Solution) {
    NoWorse(goals, a, b) && Better(goals, a, b)
  }

  lemma DomTransitive(goals: Goals, a: Solution, b: Solution, c: Solution)
    requires Dom(goals, a, b) && NoWorse(goals, b, c)
    ensures Dom(goals, a, c)
  {
    var name :| name in goals.names && Cost(goals, a, name) < Cost(goals, b, name);
    assert Cost(goals, a, name) < Cost(goals, c, name);
  }

  /** In terms of the objectives themselves, a missing one counting as zero: no minimised one is
      larger and no other one smaller, and somewhere it is strictly the other way. */
  lemma DomSpelled(goals: Goals, a: Solution, b: Solution)
    ensures Dom(goals, a, b) <==>
            && (forall name :: name in goals.names ==>
                  var x, y := if name in a.objectives then a.objectives[name] else 0.0,
                              if name in b.objectives then b.objectives[name] else 0.0;
                  if name in goals.minimize then x <= y else x >= y)
            && (exists name :: name in goals.names &&
                  var x, y := if name in a.objectives then a.objectives[name] else 0.0,
                              if name in b.objectives then b.objectives[name] else 0.0;
                  if name in goals.minimize then x < y else x > y)
  {
    forall name
      ensures Cost(goals, a, name) <= Cost(goals, b, name) <==>
              if name in goals.minimize then Value(a, name) <= Value(b, name) else Value(a, name) >= Value(b, name)
    {
    }
  }

  method Dominates(goals: Goals, a: Solution, b: Solution) returns (r: bool)
    ensures r <==> Dom(goals, a, b)
    ensures r <==>
            && (forall name :: name in goals.names ==>
                  var x, y := if name in a.objectives then a.objectives[name] else 0.0,
                              if name in b.objectives then b.objectives[name] else 0.0;
                  if name in goals.minimize then x <= y else x >= y)
            && (exists name :: name in goals.names &&
                  var x, y := if name in a.objectives then a.objectives[name] else 0.0,
                              if name in b.objectives then b.objectives[name] else 0.0;
                  if name in goals.minimize then x < y else x > y)
  {
    DomSpelled(goals, a, b);
    r := CompareAll(goals, a, b);
  }

  method CompareAll(goals: Goals, a: Solution, b: Solution) returns (r: bool)
    ensures r <==> Dom(goals, a, b)
  {
    var betterOrEqual, strictlyBetter := true, false;
    for i := 0 to |goals.names|
      invariant betterOrEqual
      invariant forall k :: 0 <= k < i ==> Cost(goals, a, goals.names[k]) <= Cost(goals, b, goals.names[k])
      invariant strictlyBetter <==>
                  exists k :: 0 <= k < i && Cost(goals, a, goals.names[k]) < Cost(goals, b, goals.names[k])
    {
      var name := goals.names[i];
      var x, y := Value(a, name), Value(b, name);
      ghost var costs := (Cost(goals, a, goals.names[i]), Cost(goals, b, goals.names[i]));
      if name in goals.minimize {
        if x > y { betterOrEqual := false; break; }
        if x < y { strictlyBetter := true; }
      } else {
        if x < y { betterOrEqual := false; break; }
        if x > y { strictlyBetter := true; }
      }
    }
    r := betterOrEqual && strictlyBetter;
  }

  // ----- fronts: peel off the non-dominated ones, again and again -----

  type Population = seq<Solution>

  ghost function Dominators(goals: Goals, pop: Population, j: nat): set<nat>
    requires j < |pop|
  {
    set i: nat | i < |pop| && Dom(goals, pop[i], pop[j])
  }

  /** For each index the set of indices that dominate it. */
  type Table = seq<set<nat>>

  ghost function TableOf(goals: Goals, pop: Population): (t: Table)
    ensures |t| == |pop| && forall x: nat :: x < |pop| ==> t[x] == Dominators(goals, pop, x)
  {
    seq(|pop|, x requires 0 <= x < |pop| => Dominators(goals, pop, x))
  }

  predicate Index(t: Table, i: nat) {
    i < |t|
  }

  function All(t: Table): set<nat> {
    set i: nat | i < |t| && Index(t, i)
  }

  /** Dominance is irreflexive and transitive, so a dominator has fewer dominators. */
  ghost predicate Strict(t: Table) {
    forall x: nat :: x < |t| ==> x !in t[x] && t[x] <= All(t) && forall y :: y in t[x] ==> t[y] <= t[x]
  }

  lemma TableStrict(goals: Goals, pop: Population)
    ensures Strict(TableOf(goals, pop))
  {
    var t := TableOf(goals, pop);
    forall x: nat, y, z | x < |t| && y in t[x] && y < |t| && z in t[y] ensures z in t[x] {
      DomTransitive(goals, pop[z], pop[y], pop[x]);
    }
    forall x: nat, y | x < |t| && y in t[x] ensures y in All(t) {
      assert Index(t, y);
    }
  }

  /** The non-dominated ones among `left`: those with no dominator in `left`. */
  ghost function NonDominated(t: Table, left: set<nat>): set<nat> {
    set x | x in left && x < |t| && t[x] !! left
  }

  /** Some non-dominated member of `left` is x itself or dominates x. */
  lemma {:induction false} Champion(t: Table, left: set<nat>, x: nat) returns (y: nat)
    requires Strict(t) && left <= All(t) && x in left
    ensures y in NonDominated(t, left) && (y == x || y in t[x])
    decreases |left * t[x]|
  {
    if t[x] !! left {
      y := x;
    } else {
      var z :| z in left && z in t[x];
      SmallerSet(left * t[z], left * t[x], z);
      y := Champion(t, left, z);
    }
  }

  lemma SmallerSet<T>(a: set<T>, b: set<T>, x: T)
    requires a <= b && x in b && x !in a
    ensures |a| < |b|
  {
    assert b == a + (b - a);
    assert x in b - a;
  }

  lemma PeelShrinks(t: Table, left: set<nat>)
    requires Strict(t) && left <= All(t) && left != {}
    ensures NonDominated(t, left) != {} && NonDominated(t, left) <= left
    ensures |left - NonDominated(t, left)| < |left|
  {
    var x :| x in left;
    var y := Champion(t, left, x);
    SmallerSet(left - NonDominated(t, left), left, y);
  }

  /** The reference definition of the fronts. */
  ghost function Peel(t: Table, left: set<nat>): seq<set<nat>>
    requires Strict(t) && left <= All(t)
    decreases |left|
  {
    if left == {} then [] else
      PeelShrinks(t, left);
      [NonDominated(t, left)] + Peel(t, left - NonDominated(t, left))
  }

  ghost function Fronts(goals: Goals, pop: Population): seq<set<nat>> {
    TableStrict(goals, pop);
    Peel(TableOf(goals, pop), All(TableOf(goals, pop)))
  }

  // ----- what the fronts are -----

  ghost function Union(sets: seq<set<nat>>): set<nat> {
    if sets == [] then {} else sets[0] + Union(sets[1..])
  }

  /** Front k is the non-dominated set of what fronts 0..k-1 leave over. */
  lemma {:induction false} FrontIs(t: Table, left: set<nat>, k: nat)
    requires Strict(t) && left <= All(t) && k < |Peel(t, left)|
    ensures var fronts := Peel(t, left);
            Union(fronts[..k]) <= left && fronts[k] == NonDominated(t, left - Union(fronts[..k])) && fronts[k] != {}
    decreases k
  {
    var fronts := Peel(t, left);
    var front := NonDominated(t, left);
    PeelShrinks(t, left);
    if k == 0 {
      assert left - {} == left;
    } else {
      var rest := Peel(t, left - front);
      FrontIs(t, left - front, k - 1);
      FrontAfter(t, left, front, rest, k);
    }
  }

  /** A front of what the first front leaves is a later front of the whole. */
  lemma FrontAfter(t: Table, left: set<nat>, front: set<nat>, rest: seq<set<nat>>, k: nat)
    requires 0 < k <= |rest| && front <= left <= All(t) && Union(rest[..k - 1]) <= left - front
    requires rest[k - 1] == NonDominated(t, left - front - Union(rest[..k - 1]))
    ensures var fronts := [front] + rest;
            Union(fronts[..k]) <= left && fronts[k] == NonDominated(t, left - Union(fronts[..k]))
  {
    UnionCons(front, rest[..k - 1]);
    assert ([front] + rest)[..k] == [front] + rest[..k - 1];
    assert left - front - Union(rest[..k - 1]) == left - (front + Union(rest[..k - 1]));
  }

  lemma UnionCons(front: set<nat>, sets: seq<set<nat>>)
    ensures Union([front] + sets) == front + Union(sets)
  {
    assert ([front] + sets)[1..] == sets;
  }

  /** Every index lies in exactly one front. */
  lemma {:induction false} OneFront(t: Table, left: set<nat>, x: nat) returns (k: nat)
    requires Strict(t) && left <= All(t) && x in left
    ensures k < |Peel(t, left)| && x in Peel(t, left)[k]
    ensures forall m: nat :: m < |Peel(t, left)| && m != k ==> x !in Peel(t, left)[m]
    decreases |left|
  {
    var fronts := Peel(t, left);
    var front := NonDominated(t, left);
    PeelShrinks(t, left);
    var rest := Peel(t, left - front);
    assert fronts == [front] + rest;
    if x in front {
      k := 0;
      forall m: nat | m < |rest| ensures x !in rest[m] { FrontIs(t, left - front, m); }
    } else {
      k := OneFront(t, left - front, x);
      k := k + 1;
    }
  }

  /** A dominator always sits in an earlier front. */
  lemma {:induction false} DominatorEarlier(t: Table, left: set<nat>, x: nat, y: nat, kx: nat, ky: nat)
    requires Strict(t) && left <= All(t) && kx < |Peel(t, left)| && ky < |Peel(t, left)|
    requires x in Peel(t, left)[kx] && y in Peel(t, left)[ky]
    requires y < |t| && x in t[y]
    ensures kx < ky
    decreases kx
  {
    var front := NonDominated(t, left);
    PeelShrinks(t, left);
    var rest := Peel(t, left - front);
    assert Peel(t, left) == [front] + rest;
    FrontIs(t, left, kx);
    if ky == 0 {
      assert false;
    } else if kx > 0 {
      DominatorEarlier(t, left - front, x, y, kx - 1, ky - 1);
    }
  }

  lemma {:induction false} UnionHas(sets: seq<set<nat>>, x: nat)
    ensures x in Union(sets) <==> exists m :: 0 <= m < |sets| && x in sets[m]
  {
    if sets != [] {
      UnionHas(sets[1..], x);
      forall m | 1 <= m < |sets| ensures sets[m] == sets[1..][m - 1] {}
    }
  }

  /** An individual is in front k exactly if it is in no earlier one, and all that dominate it are. */
  lemma FrontSpelled(goals: Goals, pop: Population, k: nat, i: nat)
    requires k < |Fronts(goals, pop)| && i < |pop|
    ensures var fronts := Fronts(goals, pop);
            i in fronts[k] <==>
            && (forall m :: 0 <= m < k ==> i !in fronts[m])
            && forall j :: 0 <= j < |pop| && Dom(goals, pop[j], pop[i]) ==> exists m :: 0 <= m < k && j in fronts[m]
  {
    var t, fronts := TableOf(goals, pop), Fronts(goals, pop);
    TableStrict(goals, pop);
    FrontOf(t, k, i);
    forall j: nat | j < |pop| ensures j in Union(fronts[..k]) <==> exists m :: 0 <= m < k && j in fronts[m] {
      EarlierFront(fronts, k, j);
    }
  }

  lemma EarlierFront(fronts: seq<set<nat>>, k: nat, j: nat)
    requires k <= |fronts|
    ensures j in Union(fronts[..k]) <==> exists m :: 0 <= m < k && j in fronts[m]
  {
    UnionHas(fronts[..k], j);
  }

  lemma FrontOf(t: Table, k: nat, i: nat)
    requires Strict(t) && k < |Peel(t, All(t))| && i < |t|
    ensures var fronts := Peel(t, All(t));
            i in fronts[k] <==>
            i !in Union(fronts[..k]) && forall j: nat :: j < |t| && j in t[i] ==> j in Union(fronts[..k])
  {
    FrontIs(t, All(t), k);
    assert Index(t, i);
    forall j: nat | j < |t| ensures j in All(t) { assert Index(t, j); }
  }

  /** The lists of `fronts` are duplicate-free and hold exactly the sets of `sets`. */
  ghost predicate Lists(fronts: seq<seq<nat>>, sets: seq<set<nat>>) {
    |fronts| == |sets| && forall k :: 0 <= k < |fronts| ==> Distinct(fronts[k]) && Elements(fronts[k]) == sets[k]
  }

  // ----- the counting sort: comparing every pair -----

  /** Pairs (a, b) the double loop has compared when it stands at (i, j). */
  predicate Compared(a: nat, b: nat, i: nat, j: nat) {
    if a < b then a < i || (a == i && b < j) else b < a && (b < i || (b == i && a < j))
  }

  ghost function Known(t: Table, x: nat, i: nat, j: nat): set<nat>
    requires x < |t|
  {
    set a | a in t[x] && Compared(a, x, i, j)
  }

  ghost predicate Counted(t: Table, count: seq<int>, dominated: seq<seq<nat>>, i: nat, j: nat) {
    && |count| == |dominated| == |t|
    && (forall x: nat :: x < |t| ==> count[x] == |Known(t, x, i, j)|)
    && (forall y: nat :: y < |t| ==> Distinct(dominated[y]))
    && (forall x: nat, y: nat :: x < |t| && y < |t| ==> (x in dominated[y] <==> y in Known(t, x, i, j)))
    && (forall y: nat :: y < |t| ==> Elements(dominated[y]) <= All(t))
  }

  /** Comparing the pair (winner, loser) adds winner to the known dominators of loser only. */
  lemma KnownAfter(t: Table, i: nat, j: nat, winner: nat, loser: nat)
    requires Strict(t) && i < j < |t| && ((winner == i && loser == j) || (winner == j && loser == i))
    requires winner in t[loser]
    ensures winner !in Known(t, loser, i, j)
    ensures Known(t, loser, i, j + 1) == Known(t, loser, i, j) + {winner}
    ensures forall x: nat :: x < |t| && x != loser ==> Known(t, x, i, j + 1) == Known(t, x, i, j)
  {
    assert loser !in t[winner];
  }

  lemma Record(t: Table, count: seq<int>, dominated: seq<seq<nat>>, i: nat, j: nat, winner: nat, loser: nat)
    requires Strict(t) && Counted(t, count, dominated, i, j)
    requires i < j < |t| && ((winner == i && loser == j) || (winner == j && loser == i))
    requires winner in t[loser]
    ensures Counted(t, count[loser := count[loser] + 1], dominated[winner := dominated[winner] + [loser]], i, j + 1)
  {
    KnownAfter(t, i, j, winner, loser);
    var dominated' := dominated[winner := dominated[winner] + [loser]];
    assert loser !in dominated[winner];
    forall x: nat, y: nat | x < |t| && y < |t|
      ensures x in dominated'[y] <==> y in Known(t, x, i, j + 1)
    {
      assert x in dominated[y] <==> y in Known(t, x, i, j);
      if y == winner {
        assert x in dominated'[y] <==> x in dominated[y] || x == loser;
      } else {
        assert dominated'[y] == dominated[y];
      }
    }
    assert Index(t, loser);
    assert Elements(dominated'[winner]) == Elements(dominated[winner]) + {loser};
  }

  lemma SameKnown(t: Table, count: seq<int>, dominated: seq<seq<nat>>, i: nat, j: nat, i': nat, j': nat)
    requires Counted(t, count, dominated, i, j)
    requires forall x: nat :: x < |t| ==> Known(t, x, i, j) == Known(t, x, i', j')
    ensures Counted(t, count, dominated, i', j')
  {
  }

  /** The two dominance tests on one pair, the second made only if the first fails. */
  method ComparePair(goals: Goals, pop: Population, i: nat, j: nat, ghost t: Table) returns (ij: bool, ji: bool)
    requires i < |pop| && j < |pop| && t == TableOf(goals, pop)
    ensures ij <==> i in t[j]
    ensures ji <==> j in t[i]
  {
    ij := Dominates(goals, pop[i], pop[j]);
    ji := false;
    if !ij { ji := Dominates(goals, pop[j], pop[i]); }
    if ij {
      TableStrict(goals, pop);
      assert j !in t[i];
    }
  }

  lemma RecordPair(t: Table, count: seq<int>, dominated: seq<seq<nat>>, i: nat, j: nat, ij: bool, ji: bool)
    requires Strict(t) && i < j < |t| && Counted(t, count, dominated, i, j)
    requires (ij <==> i in t[j]) && (ji <==> j in t[i])
    ensures ij ==> Counted(t, count[j := count[j] + 1], dominated[i := dominated[i] + [j]], i, j + 1)
    ensures ji ==> Counted(t, count[i := count[i] + 1], dominated[j := dominated[j] + [i]], i, j + 1)
    ensures !ij && !ji ==> Counted(t, count, dominated, i, j + 1)
  {
    if ij {
      Record(t, count, dominated, i, j, i, j);
    }
    if ji {
      Record(t, count, dominated, i, j, j, i);
    }
    if !ij && !ji {
      SameKnown(t, count, dominated, i, j, i, j + 1);
    }
  }

  method CompareAndRecord(goals: Goals, pop: Population, count: seq<int>, dominated: seq<seq<nat>>, i: nat, j: nat,
                          ghost t: Table)
    returns (count': seq<int>, dominated': seq<seq<nat>>)
    requires i < j < |pop| && t == TableOf(goals, pop) && Counted(t, count, dominated, i, j)
    ensures Counted(t, count', dominated', i, j + 1)
  {
    var ij, ji := ComparePair(goals, pop, i, j, t);
    TableStrict(goals, pop);
    RecordPair(t, count, dominated, i, j, ij, ji);
    if ij {
      return count[j := count[j] + 1], dominated[i := dominated[i] + [j]];
    } else if ji {
      return count[i := count[i] + 1], dominated[j := dominated[j] + [i]];
    } else {
      return count, dominated;
    }
  }

  method CountDominators(goals: Goals, pop: Population) returns (count: seq<int>, dominated: seq<seq<nat>>)
    ensures |count| == |dominated| == |pop|
    ensures forall x: nat :: x < |pop| ==> count[x] == |TableOf(goals, pop)[x]|
    ensures forall x: nat :: x < |pop| ==> Distinct(dominated[x])
    ensures forall y: nat :: y < |pop| ==> Elements(dominated[y]) == DominatedBy(TableOf(goals, pop), y)
  {
    ghost var t := TableOf(goals, pop);
    count, dominated := seq(|pop|, _ => 0), seq(|pop|, _ => []);
    StartCounting(t, count, dominated);
    for i := 0 to |pop|
      invariant Counted(t, count, dominated, i, i + 1)
    {
      for j := i + 1 to |pop|
        invariant Counted(t, count, dominated, i, j)
      {
        count, dominated := CompareAndRecord(goals, pop, count, dominated, i, j, t);
      }
      RowDone(goals, pop, count, dominated, i);
    }
    TableStrict(goals, pop);
    AllCompared(t, count, dominated);
  }

  lemma StartCounting(t: Table, count: seq<int>, dominated: seq<seq<nat>>)
    requires |count| == |dominated| == |t|
    requires forall x: nat :: x < |t| ==> count[x] == 0 && dominated[x] == []
    ensures Counted(t, count, dominated, 0, 1)
  {
    forall x: nat | x < |t| ensures Known(t, x, 0, 1) == {} {}
  }

  /** At the end of row i the loop stands, in effect, at the start of the next. */
  lemma RowDone(goals: Goals, pop: Population, count: seq<int>, dominated: seq<seq<nat>>, i: nat)
    requires Counted(TableOf(goals, pop), count, dominated, i, |pop|)
    ensures Counted(TableOf(goals, pop), count, dominated, i + 1, i + 2)
  {
    var t := TableOf(goals, pop);
    forall x: nat | x < |t| ensures Known(t, x, i, |t|) == Known(t, x, i + 1, i + 2) {
      forall a: nat | a in t[x] ensures Compared(a, x, i, |t|) == Compared(a, x, i + 1, i + 2) {}
    }
    SameKnown(t, count, dominated, i, |pop|, i + 1, i + 2);
  }

  /** When every pair has been compared, all dominators are known. */
  lemma AllCompared(t: Table, count: seq<int>, dominated: seq<seq<nat>>)
    requires Strict(t) && Counted(t, count, dominated, |t|, |t| + 1)
    ensures forall x: nat :: x < |t| ==> count[x] == |t[x]|
    ensures forall y: nat :: y < |t| ==> Elements(dominated[y]) == DominatedBy(t, y)
  {
    forall x: nat, a | x < |t| && a in t[x] ensures a < |t| && Compared(a, x, |t|, |t| + 1) { assert a in All(t); }
    forall x: nat | x < |t| ensures Known(t, x, |t|, |t| + 1) == t[x] {}
    forall y: nat | y < |t| ensures Elements(dominated[y]) == DominatedBy(t, y) {
      forall x ensures x in Elements(dominated[y]) <==> x in DominatedBy(t, y) {
        if x in Elements(dominated[y]) { assert x in All(t); }
      }
    }
  }

  // ----- the counting sort: peeling by decrements -----

  ghost function DominatedBy(table: Table, y: nat): set<nat> {
    set x: nat | x < |table| && y in table[x]
  }

  /** The indices outside `done` all of whose dominators are in `done`. */
  ghost function Ready(table: Table, done: set<nat>): set<nat> {
    set x: nat | x < |table| && x !in done && table[x] <= done
  }

  lemma ReadyIs(t: Table, done: set<nat>)
    requires Strict(t) && done <= All(t)
    ensures Ready(t, done) == NonDominated(t, All(t) - done)
  {
    forall x: nat | x < |t| && x !in done ensures t[x] <= done <==> t[x] !! All(t) - done {
      assert t[x] <= All(t);
    }
    forall x: nat | x < |t| ensures x in All(t) { assert Index(t, x); }
  }

  /** Every count is the number of dominators outside `done`, except that the indices of
      `seen` have already been relieved of `cur`. */
  ghost function Open(dominators: set<nat>, done: set<nat>): set<nat> {
    set d | d in dominators && d !in done
  }

  lemma OpenMinusOne(dominators: set<nat>, done: set<nat>, cur: nat)
    requires cur in dominators && cur !in done
    ensures |Open(dominators, done)| == |Open(dominators, done + {cur})| + 1
  {
    assert Open(dominators, done) == Open(dominators, done + {cur}) + {cur};
  }

  ghost predicate Peeling(table: Table, count: seq<int>, done: set<nat>, cur: nat, seen: set<nat>) {
    && |count| == |table|
    && forall x: nat :: x < |table| ==> count[x] == |Open(table[x], if x in seen then done + {cur} else done)|
  }

  /** The indices that ran out of open dominators while the front was processed. */
  ghost predicate Released(count: seq<int>, next: seq<nat>, settled: set<nat>) {
    && Distinct(next)
    && (forall x: nat :: x in next <==> x < |count| && count[x] == 0 && x !in settled)
    && (forall x: nat :: x in settled ==> x < |count| && count[x] == 0)
  }

  lemma PeelVisit(table: Table, count: seq<int>, done: set<nat>, cur: nat, seen: set<nat>, j: nat)
    requires Peeling(table, count, done, cur, seen)
    requires j < |table| && j !in seen && cur !in done && cur in table[j]
    ensures Peeling(table, count[j := count[j] - 1], done, cur, seen + {j}) && count[j] > 0
  {
    OpenMinusOne(table[j], done, cur);
  }

  lemma PeelNext(table: Table, count: seq<int>, done: set<nat>, cur: nat, seen: set<nat>, next: nat)
    requires Peeling(table, count, done, cur, seen)
    requires seen == DominatedBy(table, cur)
    ensures Peeling(table, count, done + {cur}, next, {})
  {
    forall x: nat | x < |table|
      ensures count[x] == |Open(table[x], done + {cur})|
    {
      if x !in seen { assert Open(table[x], done) == Open(table[x], done + {cur}); }
    }
  }

  /** Relieving everything that `cur` dominates. */
  method ReleaseOne(count: seq<int>, dominatedByCur: seq<nat>, next: seq<nat>,
                    ghost table: Table, ghost cur: nat, ghost done: set<nat>, ghost settled: set<nat>)
    returns (count': seq<int>, next': seq<nat>)
    requires Peeling(table, count, done, cur, {}) && Released(count, next, settled)
    requires Distinct(dominatedByCur) && cur !in done
    requires Elements(dominatedByCur) == DominatedBy(table, cur)
    ensures Released(count', next', settled)
    ensures forall any: nat :: Peeling(table, count', done + {cur}, any, {})
  {
    count', next' := count, next;
    for k := 0 to |dominatedByCur|
      invariant Peeling(table, count', done, cur, Elements(dominatedByCur[..k]))
      invariant Released(count', next', settled)
    {
      var j := dominatedByCur[k];
      assert j in Elements(dominatedByCur);
      assert Elements(dominatedByCur[..k + 1]) == Elements(dominatedByCur[..k]) + {j};
      PeelVisit(table, count', done, cur, Elements(dominatedByCur[..k]), j);
      count' := count'[j := count'[j] - 1];
      if count'[j] == 0 { next' := next' + [j]; }
    }
    assert dominatedByCur[..|dominatedByCur|] == dominatedByCur;
    forall any: nat ensures Peeling(table, count', done + {cur}, any, {}) {
      PeelNext(table, count', done, cur, Elements(dominatedByCur), any);
    }
  }

  method ReleaseFront(count: seq<int>, dominated: seq<seq<nat>>, front: seq<nat>,
                      ghost table: Table, ghost done: set<nat>)
    returns (count': seq<int>, next: seq<nat>)
    requires |dominated| == |table| && (forall x: nat :: x < |table| ==> Distinct(dominated[x]))
    requires forall y: nat :: y < |table| ==> Elements(dominated[y]) == DominatedBy(table, y)
    requires Peeling(table, count, done, 0, {}) && AllZero(count, done)
    requires Distinct(front) && Elements(front) == Ready(table, done)
    ensures Peeling(table, count', done + Elements(front), 0, {}) && AllZero(count', done + Elements(front))
    ensures Distinct(next) && Elements(next) == Ready(table, done + Elements(front))
  {
    ghost var settled := done + Elements(front);
    count', next := count, [];
    ReleaseStart(table, count, done, front);
    for k := 0 to |front|
      invariant forall any: nat :: Peeling(table, count', done + Elements(front[..k]), any, {})
      invariant Released(count', next, settled)
    {
      var i := front[k];
      FrontSplit(table, done, front, k);
      count', next := ReleaseOne(count', dominated[i], next, table, i, done + Elements(front[..k]), settled);
    }
    assert front[..|front|] == front;
    ReleaseEnd(table, count', settled, next);
  }

  ghost predicate AllZero(count: seq<int>, done: set<nat>) {
    forall x :: x in done ==> x < |count| && count[x] == 0
  }

  lemma FrontSplit(table: Table, done: set<nat>, front: seq<nat>, k: nat)
    requires k < |front| && Distinct(front) && Elements(front) == Ready(table, done)
    ensures front[k] < |table| && front[k] !in done + Elements(front[..k])
    ensures done + Elements(front[..k]) + {front[k]} == done + Elements(front[..k + 1])
  {
    assert front[k] in Elements(front);
    assert Elements(front[..k + 1]) == Elements(front[..k]) + {front[k]};
  }

  lemma ZeroIffReady(table: Table, count: seq<int>, done: set<nat>, x: nat)
    requires Peeling(table, count, done, 0, {}) && x < |table|
    ensures count[x] == 0 <==> table[x] <= done
  {
    var open := Open(table[x], done);
    if count[x] == 0 {
      assert open == {};
      forall d | d in table[x] ensures d in done { assert d !in open; }
    } else {
      var d :| d in open;
    }
  }

  lemma ReleaseStart(table: Table, count: seq<int>, done: set<nat>, front: seq<nat>)
    requires Peeling(table, count, done, 0, {}) && AllZero(count, done)
    requires Elements(front) == Ready(table, done)
    ensures Released(count, [], done + Elements(front))
    ensures forall any: nat :: Peeling(table, count, done + Elements(front[..0]), any, {})
  {
    forall x: nat | x < |table| ensures count[x] == 0 <==> table[x] <= done { ZeroIffReady(table, count, done, x); }
    assert done + Elements(front[..0]) == done;
    forall any: nat ensures Peeling(table, count, done, any, {}) {}
  }

  lemma ReleaseEnd(table: Table, count: seq<int>, settled: set<nat>, next: seq<nat>)
    requires Peeling(table, count, settled, 0, {}) && Released(count, next, settled)
    ensures AllZero(count, settled) && Elements(next) == Ready(table, settled)
  {
    forall x: nat | x < |table|
      ensures count[x] == 0 <==> table[x] <= settled
    {
      ZeroIffReady(table, count, settled, x);
    }
  }

  /** The whole sort. An empty population gives one empty front. */
  method FastNonDominatedSort(goals: Goals, pop: Population) returns (fronts: seq<seq<nat>>)
    ensures pop == [] ==> fronts == [[]]
    ensures pop != [] ==> Lists(fronts, Fronts(goals, pop))
  {
    var count, dominated := CountDominators(goals, pop);
    ghost var table := TableOf(goals, pop);
    TableStrict(goals, pop);
    var first: seq<nat> := [];
    for i := 0 to |pop|
      invariant Distinct(first) && |first| <= i && forall x: nat :: x in first <==> x < i && count[x] == 0
    {
      if count[i] == 0 { first := first + [i]; }
    }
    fronts := [first];
    if pop == [] { return; }
    ghost var done: set<nat> := {};
    ghost var sets: seq<set<nat>> := [];
    FirstCounts(table, count);
    FirstFront(table, count, first);
    var current := 0;
    while true
      invariant |fronts| == current + 1
      invariant Peeled(table, fronts, sets, done)
      invariant Peeling(table, count, done, 0, {}) && AllZero(count, done)
      decreases All(table) - done
    {
      var next;
      ghost var front := Elements(fronts[current]);
      ReadyIs(table, done);
      count, next := ReleaseFront(count, dominated, fronts[current], table, done);
      PeelOnce(table, fronts, sets, done, next);
      done, sets := done + front, sets + [front];
      if next == [] { return; }
      fronts := fronts + [next];
      current := current + 1;
    }
  }

  /** All fronts but the last are finished: their indices make up `done`. */
  ghost predicate Peeled(table: Table, fronts: seq<seq<nat>>, sets: seq<set<nat>>, done: set<nat>) {
    && Strict(table) && fronts != [] && done <= All(table) && done != All(table)
    && Lists(fronts[..|fronts| - 1], sets)
    && Distinct(fronts[|fronts| - 1]) && Elements(fronts[|fronts| - 1]) == NonDominated(table, All(table) - done)
    && Peel(table, All(table)) == sets + Peel(table, All(table) - done)
  }

  lemma PeelUnfolds(table: Table, left: set<nat>, rest: set<nat>)
    requires Strict(table) && left <= All(table) && left != {} && rest == left - NonDominated(table, left)
    ensures rest < left && Peel(table, left) == [NonDominated(table, left)] + Peel(table, rest)
    ensures NonDominated(table, rest) == {} ==> rest == {} && Peel(table, rest) == []
  {
    PeelShrinks(table, left);
    if rest != {} { PeelShrinks(table, rest); }
  }

  lemma PeelOnce(table: Table, fronts: seq<seq<nat>>, sets: seq<set<nat>>, done: set<nat>, next: seq<nat>)
    requires Peeled(table, fronts, sets, done)
    requires Distinct(next) && Elements(next) == Ready(table, done + Elements(fronts[|fronts| - 1]))
    ensures var front := Elements(fronts[|fronts| - 1]);
            && done < done + front
            && if next == [] then Lists(fronts, Peel(table, All(table)))
               else Peeled(table, fronts + [next], sets + [front], done + front)
  {
    var left := All(table) - done;
    var front := Elements(fronts[|fronts| - 1]);
    var rest := All(table) - (done + front);
    assert front <= left && left - front == rest;
    PeelUnfolds(table, left, rest);
    ReadyIs(table, done + front);
    JoinSeqs(sets, front, Peel(table, rest));
    ListsSnoc(fronts, sets, front);
    if next == [] {
      assert Elements(next) == {};
      assert (sets + [front]) + [] == sets + [front];
    } else {
      assert next[0] in Elements(next);
      assert (fronts + [next])[..|fronts|] == fronts;
    }
  }

  lemma ListsSnoc(fronts: seq<seq<nat>>, sets: seq<set<nat>>, front: set<nat>)
    requires fronts != [] && Lists(fronts[..|fronts| - 1], sets)
    requires Distinct(fronts[|fronts| - 1]) && Elements(fronts[|fronts| - 1]) == front
    ensures Lists(fronts, sets + [front])
  {
  }

  lemma JoinSeqs(sets: seq<set<nat>>, front: set<nat>, rest: seq<set<nat>>)
    ensures sets + ([front] + rest) == (sets + [front]) + rest
  {
  }

  lemma FirstCounts(table: Table, count: seq<int>)
    requires |count| == |table| && forall x: nat :: x < |table| ==> count[x] == |table[x]|
    ensures Peeling(table, count, {}, 0, {})
  {
    forall x: nat | x < |table| ensures Open(table[x], {}) == table[x] {}
  }

  lemma FirstFront(table: Table, count: seq<int>, first: seq<nat>)
    requires Strict(table) && |count| == |table| > 0 && Distinct(first)
    requires Peeling(table, count, {}, 0, {})
    requires forall x: nat :: x in first <==> x < |table| && count[x] == 0
    ensures Peeled(table, [first], [], {})
  {
    assert Index(table, 0) && 0 in All(table);
    assert All(table) - {} == All(table);
    forall x: nat | x < |table| ensures count[x] == 0 <==> table[x] <= {} { ZeroIffReady(table, count, {}, x); }
    ReadyIs(table, {});
    assert Elements(first) == Ready(table, {});
    assert [] + Peel(table, All(table)) == Peel(table, All(table));
  }
}
