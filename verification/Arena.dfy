/** The champion/challenger arena of `zilli/training/champion_challenger.py`: who holds the
    title after any run of matches and rollbacks. Scores, p-values, callbacks and clock
    readings are inputs. */
module Arena {
  import opened Common

  type Name = string

  datatype Status = Champion | Challenger | Contender | Retired

  datatype Model = Model(version: string, status: Status, deployedAt: real, retiredAt: Option<real>)

  datatype Match = Match(champion: Name, challenger: Name, tasks: nat, effect: real, significant: bool,
                         winner: Option<Name>)

  // ----- one match -----

  function Sum(scores: seq<real>): real {
    if scores == [] then 0.0 else Sum(scores[..|scores| - 1]) + scores[|scores| - 1]
  }

  function Mean(scores: seq<real>): real {
    if scores == [] then 0.0 else Sum(scores) / |scores| as real
  }

  /** The mean is the sum over the number of scores, and the sum adds them up. */
  lemma MeanSpelled(scores: seq<real>, x: real)
    ensures Mean([]) == 0.0 && Sum([]) == 0.0 && Sum(scores + [x]) == Sum(scores) + x
    ensures Mean(scores + [x]) == Sum(scores + [x]) / (|scores| + 1) as real
  {
    assert (scores + [x])[..|scores|] == scores;
  }

  function Shorter(x: seq<real>, y: seq<real>): (n: nat)
    ensures n <= |x| && n <= |y| && (n == |x| || n == |y|)
  {
    if |x| <= |y| then |x| else |y|
  }

  function EvaluateMatch(champion: Name, challenger: Name, ours: seq<real>, theirs: seq<real>,
                         pValue: real, level: real, gap: real): Match
  {
    var n := Shorter(ours, theirs);
    if n == 0 then Match(champion, challenger, 0, 0.0, false, None) else
      var effect := Mean(theirs[..n]) - Mean(ours[..n]);
      var significant := pValue < level && Abs(effect) > gap;
      Match(champion, challenger, n, effect, significant,
            if !significant then None else if effect > 0.0 then Some(challenger) else Some(champion))
  }

  /** What a match records, on the tasks both models have scores for. */
  lemma MatchSpelled(champion: Name, challenger: Name, ours: seq<real>, theirs: seq<real>, pValue: real,
                     level: real, gap: real)
    ensures var m := EvaluateMatch(champion, challenger, ours, theirs, pValue, level, gap);
            var n := if |ours| <= |theirs| then |ours| else |theirs|;
            && m.champion == champion && m.challenger == challenger && m.tasks == n
            && m.effect == Mean(theirs[..n]) - Mean(ours[..n])
            && (m.significant <==> n > 0 && pValue < level && (m.effect > gap || -m.effect > gap))
            && (m.winner == None <==> !m.significant)
            && (m.significant ==> m.winner == Some(if m.effect > 0.0 then challenger else champion))
  {
  }

  /** The challenger wins exactly by a significant lead over the gap, on the tasks both have
      scores for; a model matched against itself wins as challenger on any significant lead. */
  lemma ChallengerWinsIff(champion: Name, challenger: Name, ours: seq<real>, theirs: seq<real>, pValue: real,
                          level: real, gap: real)
    ensures var n := Shorter(ours, theirs);
            var lead := Mean(theirs[..n]) - Mean(ours[..n]);
            EvaluateMatch(champion, challenger, ours, theirs, pValue, level, gap).winner == Some(challenger)
            <==> n > 0 && pValue < level && if champion == challenger then Abs(lead) > gap else lead > gap && lead > 0.0
  {
  }

  lemma {:induction false} SumGrows(x: seq<real>, y: seq<real>)
    requires |x| == |y| && forall i :: 0 <= i < |x| ==> x[i] <= y[i]
    ensures Sum(x) <= Sum(y)
  {
    if x != [] { SumGrows(x[..|x| - 1], y[..|y| - 1]); }
  }

  lemma DivideGrows(x: real, y: real, n: real)
    requires x <= y && n > 0.0
    ensures x / n <= y / n
  {
    assert (y - x) / n >= 0.0;
  }

  /** Scoring better, task by task, cannot cost a challenger a win, at the same p-value. */
  lemma BetterScoresKeepWin(champion: Name, challenger: Name, ours: seq<real>, theirs: seq<real>, better: seq<real>,
                            pValue: real, level: real, gap: real)
    requires champion != challenger && |theirs| == |better| && forall i :: 0 <= i < |theirs| ==> theirs[i] <= better[i]
    requires EvaluateMatch(champion, challenger, ours, theirs, pValue, level, gap).winner == Some(challenger)
    ensures EvaluateMatch(champion, challenger, ours, better, pValue, level, gap).winner == Some(challenger)
  {
    var n := Shorter(ours, theirs);
    ChallengerWinsIff(champion, challenger, ours, theirs, pValue, level, gap);
    ChallengerWinsIff(champion, challenger, ours, better, pValue, level, gap);
    SumGrows(theirs[..n], better[..n]);
    DivideGrows(Sum(theirs[..n]), Sum(better[..n]), n as real);
  }

  /** Trading places changes the winner exactly when a dead heat counts as significant, which
      takes a negative gap: the code then favours the champion. */
  lemma SidesSwapIff(a: Name, b: Name, x: seq<real>, y: seq<real>, pValue: real, level: real, gap: real)
    requires a != b
    ensures var n := Shorter(x, y);
            EvaluateMatch(a, b, x, y, pValue, level, gap).winner != EvaluateMatch(b, a, y, x, pValue, level, gap).winner
            <==> n > 0 && pValue < level && gap < 0.0 && Mean(x[..n]) == Mean(y[..n])
  {
  }

  function Defences(matches: seq<Match>, champion: Name): nat {
    if matches == [] then 0 else
      Defences(matches[..|matches| - 1], champion) + (if matches[|matches| - 1].champion == champion then 1 else 0)
  }

  function Challenges(matches: seq<Match>, challenger: Name): seq<Match> {
    if matches == [] then [] else
      Challenges(matches[..|matches| - 1], challenger) +
          (if matches[|matches| - 1].challenger == challenger then [matches[|matches| - 1]] else [])
  }

  function Wins(matches: seq<Match>, name: Name): nat {
    if matches == [] then 0 else
      Wins(matches[..|matches| - 1], name) + (if matches[|matches| - 1].winner == Some(name) then 1 else 0)
  }

  function LastFive(matches: seq<Match>): seq<Match> {
    if |matches| <= 5 then matches else matches[|matches| - 5..]
  }

  /** Whether the match just appended wins its challenger the title. */
  function ShouldDeploy(matches: seq<Match>, m: Match, champion: Name, warmup: int): bool {
    && m.significant && m.winner == Some(m.challenger)
    && Defences(matches, champion) >= warmup
    && var recent := LastFive(Challenges(matches, m.challenger));
       !(|recent| >= 2 && Wins(recent, m.challenger) as real < |recent| as real * 0.6)
  }

  // ----- the title -----

  /** The models in the order they were registered, and who is champion. */
  datatype Board = Board(order: seq<Name>, models: map<Name, Model>, champion: Option<Name>)

  function Retire(b: Board, now: real): map<Name, Model> {
    if b.champion.Some? && b.champion.value in b.models
    then b.models[b.champion.value := b.models[b.champion.value].(status := Retired, retiredAt := Some(now))]
    else b.models
  }

  function Crown(b: Board, name: Name, now: real): Board
    requires name in b.models
  {
    var models := Retire(b, now);
    b.(models := models[name := models[name].(status := Champion, deployedAt := now)], champion := Some(name))
  }

  function RetiredKey(m: Model): real {
    if m.retiredAt.Some? then m.retiredAt.value else 0.0
  }

  ghost predicate InOrder(b: Board) {
    && Distinct(b.order)
    && (forall name :: name in b.order <==> name in b.models)
  }

  /** Handing over the title, model by model. */
  lemma CrownSpelled(b: Board, name: Name, now: real, x: Name)
    requires name in b.models && x in b.models && b.champion.Some? && b.champion.value in b.models
    ensures var b', m := Crown(b, name, now), b.models[x];
            && b'.champion == Some(name) && b'.order == b.order && b'.models.Keys == b.models.Keys
            && b'.models[x].version == m.version
            && b'.models[x].status
            == (if x == name then Champion else if x == b.champion.value then Retired else m.status)
            && b'.models[x].deployedAt == (if x == name then now else m.deployedAt)
            && b'.models[x].retiredAt == if x == b.champion.value then Some(now) else m.retiredAt
  {
  }

  /** Among the first n models registered: the first of those that retired latest. */
  function LatestRetired(b: Board, n: nat): (r: Option<nat>)
    requires InOrder(b) && n <= |b.order|
    ensures r.Some? ==> r.value < n
  {
    if n == 0 then None else
      var best := LatestRetired(b, n - 1);
      var m := b.models[b.order[n - 1]];
      if m.status != Retired then best
      else if best.Some? && RetiredKey(b.models[b.order[best.value]]) >= RetiredKey(m) then best
      else Some(n - 1)
  }

  function RollBack(b: Board, now: real): Board
    requires InOrder(b)
  {
    var target := LatestRetired(b, |b.order|);
    if target.Some? then Crown(b, b.order[target.value], now) else b
  }

  ghost predicate HasTitle(b: Board, name: Name) {
    name in b.models && b.models[name].status == Champion
  }

  ghost predicate IsRetired(b: Board, name: Name) {
    name in b.models && b.models[name].status == Retired
  }

  /** One champion, and it is the one on record. */
  ghost predicate OneChampion(b: Board) {
    forall name :: HasTitle(b, name) <==> b.champion == Some(name)
  }

  /** Every retirement so far was at or before `now`. */
  ghost predicate RetiredBy(b: Board, now: real) {
    forall name :: name in b.models ==> RetiredKey(b.models[name]) <= now
  }

  /** What every operation keeps of the board. */
  ghost predicate Sound(b: Board, now: real) {
    InOrder(b) && OneChampion(b) && RetiredBy(b, now)
  }

  lemma SoundLater(b: Board, t: real, t': real)
    requires Sound(b, t) && t <= t'
    ensures Sound(b, t')
  {
  }

  /** The i-th model is preferred to the j-th: it retired later, or then and was listed first. */
  ghost predicate Ahead(b: Board, i: nat, j: nat)
    requires InOrder(b) && i < |b.order| && j < |b.order|
  {
    var x, y := RetiredKey(b.models[b.order[i]]), RetiredKey(b.models[b.order[j]]);
    x > y || (x == y && i < j)
  }

  ghost predicate IsLatest(b: Board, n: nat, i: nat)
    requires InOrder(b) && n <= |b.order|
  {
    && i < n && IsRetired(b, b.order[i])
    && forall j :: 0 <= j < n && j != i && IsRetired(b, b.order[j]) ==> Ahead(b, i, j)
  }

  lemma {:induction false} LatestAmong(b: Board, n: nat)
    requires InOrder(b) && n <= |b.order|
    ensures var r := LatestRetired(b, n);
            if r.Some? then IsLatest(b, n, r.value) else forall j :: 0 <= j < n ==> !IsRetired(b, b.order[j])
  {
    if n > 0 { LatestAmong(b, n - 1); }
  }

  lemma LatestIff(b: Board, i: nat)
    requires InOrder(b) && i < |b.order|
    ensures LatestRetired(b, |b.order|) == Some(i) <==> IsLatest(b, |b.order|, i)
  {
    LatestAmong(b, |b.order|);
  }

  /** The rollback target: retired, later than every other retired model, or at the same time as
      those registered after it; a model without a time counts as retired at zero. */
  lemma LatestSpelled(b: Board, i: nat)
    requires InOrder(b) && i < |b.order|
    ensures LatestRetired(b, |b.order|) == Some(i) <==>
            && b.models[b.order[i]].status == Retired
            && forall j :: 0 <= j < |b.order| && j != i && b.models[b.order[j]].status == Retired ==>
                 var x := if b.models[b.order[i]].retiredAt.Some? then b.models[b.order[i]].retiredAt.value else 0.0;
                 var y := if b.models[b.order[j]].retiredAt.Some? then b.models[b.order[j]].retiredAt.value else 0.0;
                 x > y || (x == y && i < j)
  {
    LatestIff(b, i);
    forall j | 0 <= j < |b.order|
      ensures Ahead(b, i, j) <==>
              var x, y := RetiredKey(b.models[b.order[i]]), RetiredKey(b.models[b.order[j]]); x > y || (x == y && i < j)
    {
    }
  }

  lemma CrownKeeps(b: Board, name: Name, now: real)
    requires Sound(b, now) && name in b.models
    ensures Sound(Crown(b, name, now), now) && Crown(b, name, now).champion == Some(name)
  {
    var b' := Crown(b, name, now);
    assert b.champion.Some? ==> HasTitle(b, b.champion.value);
    forall x ensures HasTitle(b', x) <==> b'.champion == Some(x) {
      assert HasTitle(b, x) <==> b.champion == Some(x);
    }
  }

  lemma RollBackKeeps(b: Board, now: real)
    requires Sound(b, now)
    ensures Sound(RollBack(b, now), now)
    ensures var r := LatestRetired(b, |b.order|);
            if r.Some? then IsRetired(b, b.order[r.value]) else forall name :: !IsRetired(b, name)
  {
    LatestAmong(b, |b.order|);
    var r := LatestRetired(b, |b.order|);
    if r.Some? { CrownKeeps(b, b.order[r.value], now); }
  }

  /** Rolling back right after a challenger took the title of the i-th model gives it back
      exactly when every other retired model retired before that, or then and is listed later. */
  lemma RestoresIff(b: Board, i: nat, challenger: Name, t1: real, t2: real)
    requires InOrder(b) && OneChampion(b) && i < |b.order| && b.champion == Some(b.order[i])
    requires challenger in b.models && challenger != b.order[i]
    ensures var promoted := Crown(b, challenger, t1);
            InOrder(promoted) &&
            (RollBack(promoted, t2).champion == b.champion
             <==> forall j :: 0 <= j < |b.order| && b.order[j] != challenger && IsRetired(b, b.order[j]) ==>
                    RetiredKey(b.models[b.order[j]]) < t1 || (RetiredKey(b.models[b.order[j]]) == t1 && i < j))
  {
    var promoted := Crown(b, challenger, t1);
    var c := b.order[i];
    assert HasTitle(b, c);
    LatestIff(promoted, i);
    assert RetiredKey(promoted.models[c]) == t1;
    forall j | 0 <= j < |b.order| && j != i
      ensures IsRetired(promoted, b.order[j]) <==> IsRetired(b, b.order[j]) && b.order[j] != challenger
      ensures b.order[j] != challenger ==> promoted.models[b.order[j]] == b.models[b.order[j]]
    {
    }
  }

  /** Under a strictly increasing clock it always does, and then rolling back again returns the
      title to the challenger: two rollbacks undo each other. */
  lemma RestoresAndToggles(b: Board, challenger: Name, t0: real, t1: real, t2: real, t3: real)
    requires Sound(b, t0) && t0 < t1 < t2 < t3
    requires b.champion.Some? && challenger in b.models && b.champion != Some(challenger)
    ensures var promoted := Crown(b, challenger, t1);
            InOrder(promoted) && RollBack(promoted, t2).champion == b.champion
    ensures var back := RollBack(Crown(b, challenger, t1), t2);
            InOrder(back) && RollBack(back, t3).champion == Some(challenger)
  {
    var c := b.champion.value;
    var promoted := Crown(b, challenger, t1);
    CrownedBy(b, challenger, t0, t1);
    RestoresLoser(promoted, c, t1, t2);
    var back := Crown(promoted, c, t2);
    CrownedBy(promoted, c, t1, t2);
    RestoresLoser(back, challenger, t2, t3);
  }

  /** Whoever lost the title at time `t` was champion, and everyone else retired before. */
  ghost predicate LostTitle(b: Board, name: Name, t: real) {
    && IsRetired(b, name) && RetiredKey(b.models[name]) == t
    && forall x :: x != name && IsRetired(b, x) ==> RetiredKey(b.models[x]) < t
  }

  lemma CrownedBy(b: Board, name: Name, t0: real, t1: real)
    requires Sound(b, t0) && t0 < t1
    requires name in b.models && b.champion.Some? && b.champion != Some(name)
    ensures var b' := Crown(b, name, t1);
            Sound(b', t1) && LostTitle(b', b.champion.value, t1)
  {
    assert HasTitle(b, b.champion.value);
    forall x | x in b.models ensures RetiredKey(b.models[x]) < t1 {}
    CrownKeeps(b, name, t1);
  }

  lemma RestoresLoser(b: Board, name: Name, t: real, now: real)
    requires InOrder(b) && LostTitle(b, name, t)
    ensures RollBack(b, now) == Crown(b, name, now)
  {
    var i :| 0 <= i < |b.order| && b.order[i] == name;
    LatestIff(b, i);
  }

  // ----- what a promotion took -----

  /** At the `round`-th match `winner` took the title of `loser`. */
  datatype Promotion = Promotion(loser: Name, winner: Name, round: nat)

  /** The last match is a significant win of the winner against the loser, who was champion in at
      least `warmup` matches, and the winner won at least three fifths of its last five matches
      as challenger, or of all of them if there are fewer. */
  ghost predicate Deserved(matches: seq<Match>, warmup: int, loser: Name, winner: Name) {
    && matches != []
    && var last := matches[|matches| - 1];
       && last.champion == loser && last.challenger == winner && last.winner == Some(winner) && last.significant
       && |set i | 0 <= i < |matches| && matches[i].champion == loser| >= warmup
       && var recent := set i | 0 <= i < |matches| && IsRecent(matches, winner, i);
          5 * |set i | i in recent && matches[i].winner == Some(winner)| >= 3 * |recent|
  }

  /** A match as challenger after which there were fewer than five others. */
  ghost predicate IsRecent(matches: seq<Match>, name: Name, i: int) {
    && 0 <= i < |matches| && matches[i].challenger == name
    && |set j | i < j < |matches| && matches[j].challenger == name| < 5
  }

  ghost predicate Earned(matches: seq<Match>, warmup: int, p: Promotion) {
    0 < p.round <= |matches| && Deserved(matches[..p.round], warmup, p.loser, p.winner)
  }

  ghost predicate AllEarned(matches: seq<Match>, warmup: int, promotions: seq<Promotion>) {
    forall i :: 0 <= i < |promotions| ==> Earned(matches, warmup, promotions[i])
  }

  lemma EarnedStays(matches: seq<Match>, warmup: int, promotions: seq<Promotion>, m: Match)
    requires AllEarned(matches, warmup, promotions)
    ensures AllEarned(matches + [m], warmup, promotions)
  {
    forall i | 0 <= i < |promotions| ensures Earned(matches + [m], warmup, promotions[i]) {
      assert Earned(matches, warmup, promotions[i]);
      assert (matches + [m])[..promotions[i].round] == matches[..promotions[i].round];
    }
  }

  lemma EarnedMore(matches: seq<Match>, warmup: int, promotions: seq<Promotion>, p: Promotion)
    requires AllEarned(matches, warmup, promotions) && Earned(matches, warmup, p)
    ensures AllEarned(matches, warmup, promotions + [p])
  {
  }

  // ----- the counts of the rule, as sets of matches -----

  lemma {:induction false} DefencesAre(matches: seq<Match>, champion: Name)
    ensures Defences(matches, champion) == |set i | 0 <= i < |matches| && matches[i].champion == champion|
  {
    if matches != [] {
      var n := |matches| - 1;
      DefencesAre(matches[..n], champion);
      OneMoreDefence(matches[..n], matches[n], champion);
      assert matches == matches[..n] + [matches[n]];
    }
  }

  lemma OneMoreDefence(before: seq<Match>, m: Match, champion: Name)
    ensures var all := before + [m];
            |set i | 0 <= i < |all| && all[i].champion == champion|
            == |set i | 0 <= i < |before| && before[i].champion == champion| + (if m.champion == champion then 1 else 0)
  {
    var all := before + [m];
    var earlier := set i | 0 <= i < |before| && before[i].champion == champion;
    assert (set i | 0 <= i < |all| && all[i].champion == champion)
        == earlier + (if m.champion == champion then {|before|} else {});
  }

  /** The places of a challenger's matches, in order. */
  ghost function Places(matches: seq<Match>, name: Name): seq<int> {
    if matches == [] then [] else
      Places(matches[..|matches| - 1], name) +
        (if matches[|matches| - 1].challenger == name then [|matches| - 1] else [])
  }

  ghost predicate ArePlaces(p: seq<int>, matches: seq<Match>, name: Name) {
    && (forall k, l :: 0 <= k < l < |p| ==> p[k] < p[l])
    && forall i :: i in p <==> 0 <= i < |matches| && matches[i].challenger == name
  }

  lemma {:induction false} PlacesAre(matches: seq<Match>, name: Name)
    ensures ArePlaces(Places(matches, name), matches, name)
  {
    if matches != [] {
      var n := |matches| - 1;
      PlacesAre(matches[..n], name);
      PlacesSnoc(Places(matches[..n], name), matches[..n], matches[n], name);
      assert matches == matches[..n] + [matches[n]];
    }
  }

  lemma PlacesSnoc(p: seq<int>, before: seq<Match>, m: Match, name: Name)
    requires ArePlaces(p, before, name)
    ensures ArePlaces(p + (if m.challenger == name then [|before|] else []), before + [m], name)
  {
    forall k | 0 <= k < |p| ensures p[k] < |before| { assert p[k] in p; }
  }

  lemma {:induction false} PlacesMatch(matches: seq<Match>, name: Name)
    ensures var p, c := Places(matches, name), Challenges(matches, name);
            |p| == |c| && forall k :: 0 <= k < |p| ==> 0 <= p[k] < |matches| && matches[p[k]] == c[k]
  {
    if matches != [] {
      PlacesMatch(matches[..|matches| - 1], name);
    }
  }

  /** As many challenges follow the k-th as places follow its place. */
  lemma PlacesAfter(p: seq<int>, matches: seq<Match>, name: Name, k: nat)
    requires ArePlaces(p, matches, name) && k < |p| && 0 <= p[k]
    ensures |set j | p[k] < j < |matches| && matches[j].challenger == name| == |p| - 1 - k
  {
    var rest := p[k + 1..];
    forall j ensures p[k] < j < |matches| && matches[j].challenger == name <==> j in rest {
      if p[k] < j < |matches| && matches[j].challenger == name {
        assert p[k] in p;
        var l :| 0 <= l < |p| && p[l] == j;
        assert rest[l - k - 1] == j;
      }
      if j in rest {
        var l :| 0 <= l < |rest| && rest[l] == j;
        assert p[k + 1 + l] == j && j in p;
      }
    }
    assert (set j | p[k] < j < |matches| && matches[j].challenger == name) == Elements(rest);
    DistinctCount(rest);
  }

  function LastPlaces(p: seq<int>): seq<int> {
    if |p| <= 5 then p else p[|p| - 5..]
  }

  /** A challenge is recent exactly if it is among the last five. */
  lemma RecentAre(p: seq<int>, matches: seq<Match>, name: Name)
    requires ArePlaces(p, matches, name)
    ensures (set i | 0 <= i < |matches| && IsRecent(matches, name, i)) == Elements(LastPlaces(p))
  {
    forall i ensures 0 <= i < |matches| && IsRecent(matches, name, i) <==> i in LastPlaces(p) {
      if i in p {
        var k :| 0 <= k < |p| && p[k] == i;
        PlacesAfter(p, matches, name, k);
        LastPlacesHave(p, k);
      }
    }
  }

  lemma LastPlacesHave(p: seq<int>, k: nat)
    requires k < |p| && forall k, l :: 0 <= k < l < |p| ==> p[k] < p[l]
    ensures p[k] in LastPlaces(p) <==> |p| - 1 - k < 5
  {
    if |p| > 5 && k >= |p| - 5 { assert LastPlaces(p)[k - (|p| - 5)] == p[k]; }
  }

  ghost predicate WonAt(matches: seq<Match>, name: Name, i: int) {
    0 <= i < |matches| && matches[i].winner == Some(name)
  }

  lemma {:induction false} WinsAre(matches: seq<Match>, places: seq<int>, picked: seq<Match>, name: Name)
    requires |places| == |picked| && Distinct(places)
    requires forall k :: 0 <= k < |places| ==> 0 <= places[k] < |matches| && matches[places[k]] == picked[k]
    ensures Wins(picked, name) == |set i | i in places && WonAt(matches, name, i)|
  {
    if places != [] {
      var n := |places| - 1;
      WinsAre(matches, places[..n], picked[..n], name);
      OneMoreWin(matches, places[..n], places[n], name);
      assert places == places[..n] + [places[n]];
    }
  }

  lemma OneMoreWin(matches: seq<Match>, rest: seq<int>, i: int, name: Name)
    requires i !in rest
    ensures |set k | k in rest + [i] && WonAt(matches, name, k)|
         == |set k | k in rest && WonAt(matches, name, k)| + (if WonAt(matches, name, i) then 1 else 0)
  {
    var before := set k | k in rest && WonAt(matches, name, k);
    assert (set k | k in rest + [i] && WonAt(matches, name, k))
        == before + (if WonAt(matches, name, i) then {i} else {});
  }

  /** The rule's numbers of recent matches and of wins among them. */
  lemma RecentCounts(matches: seq<Match>, name: Name)
    ensures var recent := set i | 0 <= i < |matches| && IsRecent(matches, name, i);
            var last := LastFive(Challenges(matches, name));
            && |recent| == |last|
            && |set i | i in recent && matches[i].winner == Some(name)| == Wins(last, name)
  {
    var places, last := LastPlaces(Places(matches, name)), LastFive(Challenges(matches, name));
    PlacesAre(matches, name);
    PlacesMatch(matches, name);
    RecentAre(Places(matches, name), matches, name);
    LastPlacesMatch(matches, Places(matches, name), Challenges(matches, name));
    DistinctCount(places);
    WinsAre(matches, places, last, name);
    SameWins(matches, name, (set i | 0 <= i < |matches| && IsRecent(matches, name, i)), places);
  }

  lemma LastPlacesMatch(matches: seq<Match>, p: seq<int>, c: seq<Match>)
    requires |p| == |c| && (forall k, l :: 0 <= k < l < |p| ==> p[k] < p[l])
    requires forall k :: 0 <= k < |p| ==> 0 <= p[k] < |matches| && matches[p[k]] == c[k]
    ensures |LastPlaces(p)| == |LastFive(c)| && Distinct(LastPlaces(p))
    ensures forall k :: 0 <= k < |LastPlaces(p)| ==>
              0 <= LastPlaces(p)[k] < |matches| && matches[LastPlaces(p)[k]] == LastFive(c)[k]
  {
  }

  lemma SameWins(matches: seq<Match>, name: Name, recent: set<int>, places: seq<int>)
    requires recent == Elements(places) && forall i :: i in recent ==> 0 <= i < |matches|
    ensures (set i | i in recent && matches[i].winner == Some(name))
         == (set i | i in places && WonAt(matches, name, i))
  {
    forall i ensures i in recent <==> i in places { assert i in recent <==> i in Elements(places); }
  }

  lemma WonOne(matches: seq<Match>, m: Match, name: Name)
    requires matches != [] && matches[|matches| - 1] == m && m.winner == Some(name)
    ensures var recent := LastFive(matches); recent != [] && Wins(recent, name) >= 1
  {
    var recent := LastFive(matches);
    assert recent[|recent| - 1] == m;
  }

  lemma ThreeInFive(wins: nat, total: nat)
    requires wins >= 1 && total >= 1 && wins <= total
    ensures !(total >= 2 && wins as real < total as real * 0.6) <==> 5 * wins >= 3 * total
  {
  }

  lemma {:induction false} WinsAtMost(matches: seq<Match>, name: Name)
    ensures Wins(matches, name) <= |matches|
  {
    if matches != [] { WinsAtMost(matches[..|matches| - 1], name); }
  }

  /** A match just appended wins its challenger the title exactly if it is a significant win, the
      champion had at least `warmup` matches as such, and the challenger won three fifths of its
      last five, or of all if there are fewer. */
  lemma DeployIff(before: seq<Match>, m: Match, warmup: int)
    ensures var matches := before + [m];
            ShouldDeploy(matches, m, m.champion, warmup) <==>
            && m.significant && m.winner == Some(m.challenger)
            && |set i | 0 <= i < |matches| && matches[i].champion == m.champion| >= warmup
            && var recent := set i | 0 <= i < |matches| && matches[i].challenger == m.challenger
                                     && |set j | i < j < |matches| && matches[j].challenger == m.challenger| < 5;
               5 * |set i | i in recent && matches[i].winner == Some(m.challenger)| >= 3 * |recent|
  {
    var matches, name := before + [m], m.challenger;
    assert matches[..|matches|] == matches && matches[..|matches| - 1] == before;
    DefencesAre(matches, m.champion);
    RecentCounts(matches, name);
    var all := Challenges(matches, name);
    assert all == Challenges(before, name) + [m];
    assert (set i | 0 <= i < |matches| && IsRecent(matches, name, i))
        == (set i | 0 <= i < |matches| && matches[i].challenger == name
                    && |set j | i < j < |matches| && matches[j].challenger == name| < 5);
    if m.winner == Some(name) {
      WonOne(all, m, name);
      WinsAtMost(LastFive(all), name);
      ThreeInFive(Wins(LastFive(all), name), |LastFive(all)|);
    }
  }

  lemma DeployEarnedIff(before: seq<Match>, m: Match, warmup: int)
    ensures ShouldDeploy(before + [m], m, m.champion, warmup)
       <==> Earned(before + [m], warmup, Promotion(m.champion, m.challenger, |before| + 1))
  {
    var matches := before + [m];
    DeployIff(before, m, warmup);
    assert matches[..|before| + 1] == matches;
    assert (set i | 0 <= i < |matches| && IsRecent(matches, m.challenger, i))
        == (set i | 0 <= i < |matches| && matches[i].challenger == m.challenger
                    && |set j | i < j < |matches| && matches[j].challenger == m.challenger| < 5);
  }

  // ----- the arena -----

  class ChampionChallenger {
    const minWinGap: real
    const significanceLevel: real
    const warmupRounds: int
    var order: seq<Name>
    var models: map<Name, Model>
    var champion: Option<Name>
    var matches: seq<Match>
    var totalMatches: nat
    var championWins: nat
    var challengerWins: nat
    var deployments: nat
    var rollbacks: nat
    ghost var promotions: seq<Promotion>
    ghost var clock: real

    ghost function Roster(): Board
      reads this
    {
      Board(order, models, champion)
    }

    ghost predicate Counted()
      reads this
    {
      && totalMatches == |matches| && championWins + challengerWins == totalMatches
      && deployments == |promotions| <= challengerWins
      && (champion == None ==> matches == [])
    }

    ghost predicate Valid()
      reads this
    {
      && Sound(Roster(), clock)
      && Counted() && AllEarned(matches, warmupRounds, promotions)
    }

    constructor (minWinGap: real, significanceLevel: real, warmupRounds: int, now: real)
      requires now >= 0.0
      ensures Valid() && Roster() == Board([], map[], None) && matches == [] && rollbacks == 0 && clock == now
      ensures this.minWinGap == minWinGap && this.significanceLevel == significanceLevel &&
              this.warmupRounds == warmupRounds
    {
      this.minWinGap, this.significanceLevel, this.warmupRounds := minWinGap, significanceLevel, warmupRounds;
      order, models, champion, matches := [], map[], None, [];
      totalMatches, championWins, challengerWins, deployments, rollbacks := 0, 0, 0, 0, 0;
      promotions, clock := [], now;
    }

    /** Registering anew, or a second champion, is allowed by the code and breaks the title. */
    method RegisterModel(name: Name, version: string, status: Status, now: real)
      requires Valid() && 0.0 <= clock <= now
      modifies `order, `models, `champion, `clock
      ensures clock == now
      ensures Roster() == Registered(old(Roster()), name, version, status, now)
      ensures models == old(models)[name := Model(version, status, if status == Champion then now else 0.0, None)]
      ensures order == (if name in old(models) then old(order) else old(order) + [name])
      ensures champion == if status == Champion then Some(name) else old(champion)
      ensures Valid() <==> OneChampion(Roster())
    {
      SoundLater(Roster(), clock, now);
      RegisteredKeeps(Roster(), name, version, status, now);
      models := models[name := Model(version, status, if status == Champion then now else 0.0, None)];
      if name !in order { order := order + [name]; }
      if status == Champion { champion := Some(name); }
      clock := now;
    }

    method RunMatch(challenger: Name, ours: seq<real>, theirs: seq<real>, pValue: real, deployOk: bool, now: real)
      returns (r: Option<Match>)
      requires Valid() && clock <= now
      modifies this
      ensures Valid() && clock == now
      ensures r.None? <==> old(champion) == None || challenger !in old(models)
      ensures r.None? ==> matches == old(matches) && Roster() == old(Roster()) && promotions == old(promotions)
      ensures r.Some? ==>
                var c, m := old(champion).value, r.value;
                var promoted := deployOk && Earned(matches, warmupRounds, Promotion(c, challenger, |matches|));
                && m == EvaluateMatch(c, challenger, ours, theirs, pValue, significanceLevel, minWinGap)
                && matches == old(matches) + [m]
                && challengerWins == old(challengerWins) + (if m.winner == Some(challenger) then 1 else 0)
                && Roster() == (if promoted then Crown(old(Roster()), challenger, now) else old(Roster()))
                && promotions == old(promotions) + (if promoted then [Promotion(c, challenger, |matches|)] else [])
      ensures rollbacks == old(rollbacks)
    {
      SoundLater(Roster(), clock, now);
      clock := now;
      if champion == None || challenger !in models { return None; }
      var m := EvaluateMatch(champion.value, challenger, ours, theirs, pValue, significanceLevel, minWinGap);
      Judge(m, deployOk, now);
      r := Some(m);
    }

    /** A match that has been played: the title changes hands exactly if that has been earned. */
    method Judge(m: Match, deployOk: bool, now: real)
      requires Valid() && clock == now && champion == Some(m.champion) && m.challenger in models
      modifies `matches, `totalMatches, `championWins, `challengerWins, `models, `champion, `deployments, `promotions
      ensures Valid() && matches == old(matches) + [m]
      ensures challengerWins == old(challengerWins) + (if m.winner == Some(m.challenger) then 1 else 0)
      ensures var promoted := deployOk && Earned(matches, warmupRounds, Promotion(m.champion, m.challenger, |matches|));
              && Roster() == (if promoted then Crown(old(Roster()), m.challenger, now) else old(Roster()))
              && promotions == old(promotions) +
                  (if promoted then [Promotion(m.champion, m.challenger, |matches|)] else [])
    {
      DeployEarnedIff(matches, m, warmupRounds);
      Settle(m, deployOk, now);
    }

    /** Counting a match that has been played, and what may follow from it. */
    method Settle(m: Match, deployOk: bool, now: real)
      requires Valid() && clock == now && champion == Some(m.champion) && m.challenger in models
      modifies `matches, `totalMatches, `championWins, `challengerWins, `models, `champion, `deployments, `promotions
      ensures Valid() && matches == old(matches) + [m]
      ensures challengerWins == old(challengerWins) + (if m.winner == Some(m.challenger) then 1 else 0)
      ensures var promoted := deployOk && ShouldDeploy(matches, m, m.champion, warmupRounds);
              && Roster() == (if promoted then Crown(old(Roster()), m.challenger, now) else old(Roster()))
              && promotions == old(promotions) +
                  (if promoted then [Promotion(m.champion, m.challenger, |matches|)] else [])
    {
      Record(m);
      if m.winner == Some(m.challenger) {
        var deploy := ShouldDeploy(matches, m, m.champion, warmupRounds);
        if deploy {
          DeployEarnedIff(old(matches), m, warmupRounds);
          PromoteChallenger(m.challenger, deployOk, now);
        }
      }
    }

    method Record(m: Match)
      requires Valid() && champion.Some?
      modifies `matches, `totalMatches, `championWins, `challengerWins
      ensures Valid() && matches == old(matches) + [m] && |promotions| < |matches|
      ensures challengerWins == old(challengerWins) + (if m.winner == Some(m.challenger) then 1 else 0)
      ensures m.winner == Some(m.challenger) ==> |promotions| < challengerWins
    {
      EarnedStays(matches, warmupRounds, promotions, m);
      matches := matches + [m];
      totalMatches := totalMatches + 1;
      if m.winner == Some(m.challenger) {
        challengerWins := challengerWins + 1;
      } else {
        championWins := championWins + 1;
      }
    }

    /** The title changes hands unless the deploy callback raises. */
    method PromoteChallenger(challenger: Name, deployOk: bool, now: real)
      requires challenger in models && champion.Some? && clock == now
      requires Sound(Roster(), now)
      requires AllEarned(matches, warmupRounds, promotions)
      requires Earned(matches, warmupRounds, Promotion(champion.value, challenger, |matches|))
      modifies `models, `champion, `deployments, `promotions
      ensures Roster() == if deployOk then Crown(old(Roster()), challenger, now) else old(Roster())
      ensures deployments == old(deployments) + (if deployOk then 1 else 0)
      ensures promotions == old(promotions) +
              (if deployOk then [Promotion(old(champion).value, challenger, |matches|)] else [])
      ensures Sound(Roster(), now)
      ensures AllEarned(matches, warmupRounds, promotions)
    {
      if !deployOk { return; }
      CrownKeeps(Roster(), challenger, now);
      EarnedMore(matches, warmupRounds, promotions, Promotion(champion.value, challenger, |matches|));
      promotions := promotions + [Promotion(champion.value, challenger, |matches|)];
      TakeTitle(challenger, now);
      deployments := deployments + 1;
    }

    method TakeTitle(name: Name, now: real)
      requires name in models
      modifies `models, `champion
      ensures Roster() == Crown(old(Roster()), name, now)
    {
      if champion.Some? && champion.value in models {
        models := models[champion.value := models[champion.value].(status := Retired, retiredAt := Some(now))];
      }
      models := models[name := models[name].(status := Champion, deployedAt := now)];
      champion := Some(name);
    }

    /** The title goes back to the model that retired latest, if matches were ever played. */
    method Rollback(now: real) returns (r: Option<Name>)
      requires Valid() && clock <= now
      modifies `models, `champion, `rollbacks, `clock
      ensures Valid() && clock == now
      ensures Roster() == if matches == [] then old(Roster()) else RollBack(old(Roster()), now)
      ensures r.Some? ==> r == champion && IsRetired(old(Roster()), r.value) && rollbacks == old(rollbacks) + 1
      ensures r == None ==>
                (matches == [] || forall name :: !IsRetired(old(Roster()), name)) && rollbacks == old(rollbacks)
    {
      SoundLater(Roster(), clock, now);
      clock := now;
      if matches == [] { return None; }
      var b := Board(order, models, champion);
      var target := LatestRetired(b, |order|);
      RollBackKeeps(b, now);
      if target == None { return None; }
      var name := order[target.value];
      TakeTitle(name, now);
      rollbacks := rollbacks + 1;
      r := Some(name);
    }
  }

  function Registered(b: Board, name: Name, version: string, status: Status, now: real): Board {
    Board(if name in b.order then b.order else b.order + [name],
          b.models[name := Model(version, status, if status == Champion then now else 0.0, None)],
          if status == Champion then Some(name) else b.champion)
  }

  lemma RegisteredKeeps(b: Board, name: Name, version: string, status: Status, now: real)
    requires Sound(b, now) && now >= 0.0
    ensures var b' := Registered(b, name, version, status, now); InOrder(b') && RetiredBy(b', now)
  {
  }

  /** Registering keeps the title in order exactly when it neither crowns a second model nor
      strips the champion of its status. */
  lemma RegisteringKeepsTitleIff(b: Board, name: Name, version: string, status: Status, now: real)
    requires OneChampion(b)
    ensures OneChampion(Registered(b, name, version, status, now))
       <==> if status == Champion then b.champion == None || b.champion == Some(name) else b.champion != Some(name)
  {
    var b' := Registered(b, name, version, status, now);
    if status == Champion {
      assert HasTitle(b', name);
      if b.champion.Some? && b.champion != Some(name) {
        assert HasTitle(b, b.champion.value) && HasTitle(b', b.champion.value);
      }
    } else {
      assert !HasTitle(b', name);
    }
    forall x | x != name ensures HasTitle(b', x) <==> HasTitle(b, x) {}
  }
}
