/** The two-level response cache of `zilli/cache/engine.py`: a bounded memory map over a disk
    map. The ghost log of what callers did is the specification it must answer for. */
module Caching {
  import opened Common

  type Key = string

  /** A dictionary entry; `hits` steers eviction and is never part of what is promised. */
  datatype Entry = Entry(text: string, model: string, tokensIn: int, tokensOut: int, createdAt: real, hits: nat)

  // ----- the key -----

  /** What is hashed: the temperature is given as the text it is printed as. */
  function RawKey(model: string, temperature: string, prompt: string): Key {
    model + "||" + temperature + "||" + prompt
  }

  predicate NoBar(s: string) {
    forall i :: 0 <= i < |s| ==> s[i] != '|'
  }

  lemma CutAtBar(a: string, b: string, x: string, y: string)
    requires NoBar(a) && NoBar(b) && a + "||" + x == b + "||" + y
    ensures a == b && x == y
  {
    var s, t := a + "||" + x, b + "||" + y;
    assert s[|a|] == '|' && t[|b|] == '|';
    assert |a| == |b|;
    assert a == s[..|a|] == t[..|b|] == b;
    assert x == s[|a| + 2..] == t[|b| + 2..] == y;
  }

  /** Requests to one model share a key only if they are the same. */
  lemma KeysDiffer(model: string, t1: string, p1: string, t2: string, p2: string)
    requires NoBar(t1) && NoBar(t2)
    ensures RawKey(model, t1, p1) == RawKey(model, t2, p2) <==> t1 == t2 && p1 == p2
  {
    if RawKey(model, t1, p1) == RawKey(model, t2, p2) {
      var k1, k2 := RawKey(model, t1, p1), RawKey(model, t2, p2);
      assert k1[|model| + 2..] == t1 + "||" + p1 && k2[|model| + 2..] == t2 + "||" + p2;
      CutAtBar(t1, t2, p1, p2);
    }
  }

  /** All that is assumed of the texts temperatures are printed as: they are not empty and have
      no bar in them. */
  ghost predicate IsPrinting(printed: string -> bool) {
    forall t :: printed(t) ==> t != "" && NoBar(t)
  }

  ghost predicate CanCollide(printed: string -> bool, m1: string, m2: string) {
    exists t1, p1, t2, p2 :: printed(t1) && printed(t2) && RawKey(m1, t1, p1) == RawKey(m2, t2, p2)
  }

  /** The second name goes on with a printed temperature, where one would follow the first. */
  ghost predicate Extends(printed: string -> bool, m1: string, m2: string) {
    exists t :: printed(t) && m1 + "||" + t + "||" <= m2 + "||"
  }

  /** Requests to two different models can share a key exactly when one name, with a separator and
      a printed temperature after it, is where the other name and its separator begin. */
  lemma CollideIff(printed: string -> bool, m1: string, m2: string)
    requires IsPrinting(printed) && m1 != m2
    ensures (exists t1, p1, t2, p2 :: printed(t1) && printed(t2) && RawKey(m1, t1, p1) == RawKey(m2, t2, p2))
       <==> (exists t :: printed(t) && m1 + "||" + t + "||" <= m2 + "||")
            || exists t :: printed(t) && m2 + "||" + t + "||" <= m1 + "||"
  {
    ExtensionsCollide(printed, m1, m2);
    assert CanCollide(printed, m1, m2)
      <==> exists t1, p1, t2, p2 :: printed(t1) && printed(t2) && RawKey(m1, t1, p1) == RawKey(m2, t2, p2);
  }

  lemma ExtensionsCollide(printed: string -> bool, m1: string, m2: string)
    requires IsPrinting(printed) && m1 != m2
    ensures CanCollide(printed, m1, m2) <==> Extends(printed, m1, m2) || Extends(printed, m2, m1)
  {
    if CanCollide(printed, m1, m2) {
      var t1, p1, t2, p2 :| printed(t1) && printed(t2) && RawKey(m1, t1, p1) == RawKey(m2, t2, p2);
      if |m1| <= |m2| {
        CollisionExtends(printed, m1, t1, p1, m2, t2, p2);
      } else {
        CollisionExtends(printed, m2, t2, p2, m1, t1, p1);
      }
    }
    if Extends(printed, m1, m2) { ExtensionCollides(printed, m1, m2); }
    if Extends(printed, m2, m1) {
      ExtensionCollides(printed, m2, m1);
      var t1, p1, t2, p2 :| printed(t1) && printed(t2) && RawKey(m2, t1, p1) == RawKey(m1, t2, p2);
      assert RawKey(m1, t2, p2) == RawKey(m2, t1, p1);
    }
  }

  lemma CollisionExtends(printed: string -> bool, m1: string, t1: string, p1: string, m2: string, t2: string,
                         p2: string)
    requires IsPrinting(printed) && printed(t1)
    requires m1 != m2 && |m1| <= |m2| && RawKey(m1, t1, p1) == RawKey(m2, t2, p2)
    ensures Extends(printed, m1, m2)
  {
    var key, head := RawKey(m2, t2, p2), m1 + "||" + t1;
    assert key[..|m2|] == m2 && key[|m2|] == '|' && key[|m2| + 1] == '|';
    assert key == head + "||" + p1;
    assert key[..|m1|] == m1;
    assert forall i :: 0 <= i < |t1| ==> key[|m1| + 2 + i] == t1[i];
    assert |m2| != |m1| + 1;
    assert |m2| >= |head|;
    assert head + "||" == key[..|head| + 2] && m2 + "||" == key[..|m2| + 2];
  }

  lemma ExtensionCollides(printed: string -> bool, m1: string, m2: string)
    requires Extends(printed, m1, m2)
    ensures CanCollide(printed, m1, m2)
  {
    var t :| printed(t) && m1 + "||" + t + "||" <= m2 + "||";
    var head := m1 + "||" + t + "||";
    var rest := (m2 + "||")[|head|..];
    assert m2 + "||" == head + rest;
    assert RawKey(m2, t, "") == m2 + "||" + (t + "||") == head + rest + (t + "||") == RawKey(m1, t, rest + (t + "||"));
  }

  // ----- what the callers did -----

  datatype Op = Stored(key: Key, entry: Entry) | Dropped(key: Key) | Wiped

  /** The last accepted set of a key, if nothing has dropped it since. */
  ghost function Latest(log: seq<Op>, key: Key): Option<Entry> {
    if log == [] then None else
      var before := Latest(log[..|log| - 1], key);
      match log[|log| - 1]
      case Stored(k, e) => if k == key then Some(e) else before
      case Dropped(k) => if k == key then None else before
      case Wiped => None
  }

  /** The operation about the key after which nothing concerned it. */
  ghost predicate IsLastSet(log: seq<Op>, key: Key, entry: Entry, i: nat) {
    && i < |log| && log[i] == Stored(key, entry)
    && forall j :: i < j < |log| ==> !Concerns(log[j], key)
  }

  predicate Concerns(op: Op, key: Key) {
    match op
    case Stored(k, _) => k == key
    case Dropped(k) => k == key
    case Wiped => true
  }

  lemma {:induction false} LatestIsLastSet(log: seq<Op>, key: Key, entry: Entry)
    ensures Latest(log, key) == Some(entry) <==> exists i: nat :: IsLastSet(log, key, entry, i)
  {
    if log != [] {
      var n := |log| - 1;
      var before := log[..n];
      LatestIsLastSet(before, key, entry);
      if Concerns(log[n], key) {
        if log[n] == Stored(key, entry) { assert IsLastSet(log, key, entry, n); }
      } else {
        forall i: nat ensures IsLastSet(log, key, entry, i) <==> IsLastSet(before, key, entry, i) {
          if i < n { assert log[i] == before[i]; }
        }
      }
    }
  }

  lemma LatestAfter(log: seq<Op>, op: Op, key: Key)
    ensures !Concerns(op, key) ==> Latest(log + [op], key) == Latest(log, key)
    ensures Concerns(op, key) ==> Latest(log + [op], key) == if op.Stored? then Some(op.entry) else None
  {
    assert (log + [op])[..|log + [op]| - 1] == log;
  }

  // ----- what memory and disk hold for one key -----

  function Find(m: map<Key, Entry>, key: Key): Option<Entry> {
    if key in m then Some(m[key]) else None
  }

  predicate Expired(e: Entry, now: real, ttl: int) {
    now - e.createdAt > ttl as real
  }

  /** An entry that has not been counted. */
  function Fresh(e: Entry): Entry {
    e.(hits := 0)
  }

  ghost predicate KeyOk(inMemory: Option<Entry>, onDisk: Option<Entry>, latest: Option<Entry>, clock: real, ttl: int) {
    && (inMemory.Some? ==> latest == Some(Fresh(inMemory.value)))
    && (onDisk.Some? ==> latest == onDisk && onDisk.value.hits == 0)
    && (latest.Some? ==> onDisk.Some? || Expired(latest.value, clock, ttl))
  }

  ghost predicate AllOk(memory: map<Key, Entry>, disk: map<Key, Entry>, log: seq<Op>, clock: real, ttl: int) {
    forall key :: KeyOk(Find(memory, key), Find(disk, key), Latest(log, key), clock, ttl)
  }

  lemma OkOf(memory: map<Key, Entry>, disk: map<Key, Entry>, log: seq<Op>, clock: real, ttl: int, key: Key)
    requires AllOk(memory, disk, log, clock, ttl)
    ensures KeyOk(Find(memory, key), Find(disk, key), Latest(log, key), clock, ttl)
  {
  }

  lemma Later(memory: map<Key, Entry>, disk: map<Key, Entry>, log: seq<Op>, clock: real, clock': real, ttl: int)
    requires AllOk(memory, disk, log, clock, ttl) && clock <= clock'
    ensures AllOk(memory, disk, log, clock', ttl)
  {
    forall key ensures KeyOk(Find(memory, key), Find(disk, key), Latest(log, key), clock', ttl) {
      OkOf(memory, disk, log, clock, ttl, key);
    }
  }

  ghost predicate Within(small: map<Key, Entry>, big: map<Key, Entry>) {
    forall key :: key in small ==> key in big && small[key] == big[key]
  }

  lemma Forget(memory: map<Key, Entry>, memory': map<Key, Entry>, disk: map<Key, Entry>, log: seq<Op>, clock: real,
               ttl: int)
    requires AllOk(memory, disk, log, clock, ttl) && Within(memory', memory)
    ensures AllOk(memory', disk, log, clock, ttl)
  {
    forall key ensures KeyOk(Find(memory', key), Find(disk, key), Latest(log, key), clock, ttl) {
      OkOf(memory, disk, log, clock, ttl, key);
    }
  }

  /** Memory and disk may change at one key, if they are right for it. */
  lemma Change(memory: map<Key, Entry>, disk: map<Key, Entry>, log: seq<Op>, clock: real, ttl: int,
               memory': map<Key, Entry>, disk': map<Key, Entry>, log': seq<Op>, key: Key)
    requires AllOk(memory, disk, log, clock, ttl)
    requires memory' - {key} == memory - {key} && disk' - {key} == disk - {key}
    requires forall k :: k != key ==> Latest(log', k) == Latest(log, k)
    requires KeyOk(Find(memory', key), Find(disk', key), Latest(log', key), clock, ttl)
    ensures AllOk(memory', disk', log', clock, ttl)
  {
    forall k ensures KeyOk(Find(memory', k), Find(disk', k), Latest(log', k), clock, ttl) {
      if k != key {
        OkOf(memory, disk, log, clock, ttl, k);
        assert Find(memory', k) == Find(memory' - {key}, k) == Find(memory - {key}, k) == Find(memory, k);
        assert Find(disk', k) == Find(disk' - {key}, k) == Find(disk - {key}, k) == Find(disk, k);
      }
    }
  }

  lemma StoreKeeps(memory: map<Key, Entry>, disk: map<Key, Entry>, log: seq<Op>, now: real, ttl: int, key: Key,
                   entry: Entry)
    requires AllOk(memory, disk, log, now, ttl) && entry.hits == 0
    ensures AllOk(memory[key := entry], disk[key := entry], log + [Stored(key, entry)], now, ttl)
  {
    var log' := log + [Stored(key, entry)];
    forall k ensures k != key ==> Latest(log', k) == Latest(log, k) { LatestAfter(log, Stored(key, entry), k); }
    LatestAfter(log, Stored(key, entry), key);
    Change(memory, disk, log, now, ttl, memory[key := entry], disk[key := entry], log', key);
  }

  /** A disabled cache holds and is asked for nothing, and its log stays empty. */
  lemma DropKeeps(memory: map<Key, Entry>, disk: map<Key, Entry>, log: seq<Op>, now: real, ttl: int, key: Key,
                  enabled: bool)
    requires AllOk(memory, disk, log, now, ttl) && (!enabled ==> log == [])
    ensures AllOk(memory - {key}, disk - {key}, if enabled then log + [Dropped(key)] else log, now, ttl)
  {
    var log' := if enabled then log + [Dropped(key)] else log;
    forall k ensures k != key ==> Latest(log', k) == Latest(log, k) { LatestAfter(log, Dropped(key), k); }
    LatestAfter(log, Dropped(key), key);
    Change(memory, disk, log, now, ttl, memory - {key}, disk - {key}, log', key);
  }

  // ----- the dictionary's order, and eviction -----

  /** `order` lists the keys of `memory`, each once, oldest insertion first. */
  ghost predicate InOrder(order: seq<Key>, memory: map<Key, Entry>) {
    Distinct(order) && forall key :: key in order <==> key in memory
  }

  lemma RemoveInOrder(order: seq<Key>, memory: map<Key, Entry>, key: Key)
    requires InOrder(order, memory)
    ensures InOrder(Without(order, key), memory - {key})
    ensures |Without(order, key)| == |order| - (if key in memory then 1 else 0)
  {
    WithoutCount(order, key);
    forall x ensures x in Without(order, key) <==> x in memory - {key} { WithoutHas(order, key, x); }
  }

  function Inserted(order: seq<Key>, key: Key): seq<Key> {
    if key in order then order else order + [key]
  }

  lemma InsertInOrder(order: seq<Key>, memory: map<Key, Entry>, key: Key, entry: Entry)
    requires InOrder(order, memory)
    ensures InOrder(Inserted(order, key), memory[key := entry])
  {
  }

  /** x was put into memory before y. */
  ghost predicate Before(order: seq<Key>, x: Key, y: Key) {
    exists i, j :: 0 <= i < j < |order| && order[i] == x && order[j] == y
  }

  lemma BeforeSnoc(order: seq<Key>, last: Key, x: Key, y: Key)
    ensures Before(order + [last], x, y) <==> Before(order, x, y) || (x in order && y == last)
  {
    var all := order + [last];
    if Before(order, x, y) {
      var i, j :| 0 <= i < j < |order| && order[i] == x && order[j] == y;
      assert all[i] == x && all[j] == y;
    }
    if x in order && y == last {
      var i :| 0 <= i < |order| && order[i] == x;
      assert all[i] == x && all[|order|] == y;
    }
  }

  lemma {:induction false} BeforeWithout(order: seq<Key>, key: Key, x: Key, y: Key)
    requires Before(Without(order, key), x, y)
    ensures Before(order, x, y)
  {
    if order != [] {
      var rest, last := order[..|order| - 1], order[|order| - 1];
      assert order == rest + [last];
      BeforeSnoc(rest, last, x, y);
      if last != key { BeforeSnoc(Without(rest, key), last, x, y); }
      if Before(Without(rest, key), x, y) { BeforeWithout(rest, key, x, y); }
      WithoutHas(rest, key, x);
    }
  }

  /** x is used less than y, or as often and put in before it. */
  ghost predicate Sooner(order: seq<Key>, memory: map<Key, Entry>, x: Key, y: Key)
    requires x in memory && y in memory
  {
    memory[x].hits < memory[y].hits || (memory[x].hits == memory[y].hits && Before(order, x, y))
  }

  function LeastUsed(order: seq<Key>, memory: map<Key, Entry>): (key: Key)
    requires order != [] && forall k :: k in order ==> k in memory
    ensures key in order && forall k :: k in order ==> memory[key].hits <= memory[k].hits
  {
    var n := |order| - 1;
    assert order == order[..n] + [order[n]];
    if n == 0 then order[0] else
      var k := LeastUsed(order[..n], memory);
      if memory[order[n]].hits < memory[k].hits then order[n] else k
  }

  lemma {:induction false} LeastUsedFirst(order: seq<Key>, memory: map<Key, Entry>, k: Key)
    requires (forall x :: x in order ==> x in memory) && k in order && k != LeastUsed(order, memory)
    ensures Sooner(order, memory, LeastUsed(order, memory), k)
  {
    var n := |order| - 1;
    assert order == order[..n] + [order[n]];
    if n > 0 {
      var least := LeastUsed(order[..n], memory);
      BeforeSnoc(order[..n], order[n], least, k);
      if k != least && k in order[..n] { LeastUsedFirst(order[..n], memory, k); }
    }
  }

  /** No key was evicted while a key stayed that is used less, or as often and put in before it. */
  ghost predicate EvictsLeast(order: seq<Key>, before: map<Key, Entry>, after: map<Key, Entry>) {
    forall x, y :: x in before && x !in after && y in before && y in after ==> Sooner(order, before, x, y)
  }

  method TrimMemory(order: seq<Key>, memory: map<Key, Entry>, size: nat)
    returns (order': seq<Key>, memory': map<Key, Entry>)
    requires InOrder(order, memory)
    ensures InOrder(order', memory') && |order'| == (if |order| <= size then |order| else size)
    ensures Within(memory', memory) && EvictsLeast(order, memory, memory')
  {
    order', memory' := order, memory;
    while |order'| > size
      invariant InOrder(order', memory') && Within(memory', memory) && EvictsLeast(order, memory, memory')
      invariant forall x, y :: Before(order', x, y) ==> Before(order, x, y)
      invariant |order| <= size ==> order' == order
      invariant |order| > size ==> |order'| >= size
      decreases |order'|
    {
      var oldest := LeastUsed(order', memory');
      RemoveInOrder(order', memory', oldest);
      forall k | k in order' && k != oldest ensures Sooner(order', memory', oldest, k) {
        LeastUsedFirst(order', memory', k);
      }
      EvictStep(order, order', memory, memory', oldest);
      forall x, y | Before(Without(order', oldest), x, y) ensures Before(order, x, y) {
        BeforeWithout(order', oldest, x, y);
      }
      order', memory' := Without(order', oldest), memory' - {oldest};
    }
  }

  lemma EvictStep(order: seq<Key>, rest: seq<Key>, before: map<Key, Entry>, now: map<Key, Entry>, key: Key)
    requires Within(now, before) && EvictsLeast(order, before, now)
    requires forall x, y :: Before(rest, x, y) ==> Before(order, x, y)
    requires key in now && forall k :: k in now && k != key ==> Sooner(rest, now, key, k)
    ensures Within(now - {key}, before) && EvictsLeast(order, before, now - {key})
  {
  }

  /** Fewer keys than the listing is long, so a bound on the listing bounds the dictionary. */
  lemma {:induction false} KeysCounted(order: seq<Key>, keys: set<Key>)
    requires forall k :: k in keys ==> k in order
    ensures |keys| <= |order|
  {
    if order == [] {
      assert keys == {};
    } else {
      var n := |order| - 1;
      assert order == order[..n] + [order[n]];
      KeysCounted(order[..n], keys - {order[n]});
    }
  }

  function LastKeys(keys: seq<Key>, n: nat): seq<Key> {
    if n == 0 || |keys| <= n then keys else keys[|keys| - n..]
  }

  /** Memory holds, in order, exactly the first i indexed keys that have a file. */
  ghost predicate Loaded(index: seq<Key>, i: nat, disk: map<Key, Entry>, order: seq<Key>, memory: map<Key, Entry>)
    requires i <= |index|
  {
    && InOrder(order, memory) && |order| <= i && Within(memory, disk)
    && forall k :: k in index[..i] && k in disk <==> k in memory
  }

  lemma LoadOne(index: seq<Key>, i: nat, disk: map<Key, Entry>, order: seq<Key>, memory: map<Key, Entry>)
    requires i < |index| && Loaded(index, i, disk, order, memory)
    ensures if index[i] in disk
            then Loaded(index, i + 1, disk, Inserted(order, index[i]), memory[index[i] := disk[index[i]]])
            else Loaded(index, i + 1, disk, order, memory)
  {
    assert index[..i + 1] == index[..i] + [index[i]];
    if index[i] in disk { InsertInOrder(order, memory, index[i], disk[index[i]]); }
  }

  /** Reading back the indexed entries that still have a file. */
  method LoadIndex(index: seq<Key>, disk: map<Key, Entry>) returns (order: seq<Key>, memory: map<Key, Entry>)
    ensures Loaded(index, |index|, disk, order, memory)
  {
    order, memory := [], map[];
    for i := 0 to |index|
      invariant Loaded(index, i, disk, order, memory)
    {
      LoadOne(index, i, disk, order, memory);
      if index[i] in disk {
        order, memory := Inserted(order, index[i]), memory[index[i] := disk[index[i]]];
      }
    }
  }

  class CacheEngine {
    const enabled: bool
    const memorySize: nat
    const ttl: int
    const maxEntrySize: int
    var memory: map<Key, Entry>
    var order: seq<Key>
    var disk: map<Key, Entry>
    var index: seq<Key>
    var hits: nat
    var misses: nat
    ghost var log: seq<Op>
    ghost var clock: real

    ghost predicate Valid()
      reads this
    {
      && InOrder(order, memory) && |order| <= memorySize && |index| <= memorySize
      && AllOk(memory, disk, log, clock, ttl)
      && (!enabled ==> log == [] && memory == map[])
    }

    constructor (enabled: bool, memorySize: nat, ttl: int, maxEntrySize: int, now: real)
      ensures Valid() && log == [] && clock == now && hits == 0 && misses == 0
      ensures this.enabled == enabled && this.memorySize == memorySize && this.ttl == ttl &&
              this.maxEntrySize == maxEntrySize
    {
      this.enabled, this.memorySize, this.ttl, this.maxEntrySize := enabled, memorySize, ttl, maxEntrySize;
      memory, order, disk, index, hits, misses := map[], [], map[], [], 0, 0;
      log, clock := [], now;
    }

    /** Exactly the last accepted set of the key while it is unexpired, however often it was
        evicted in between; memory and disk only change behind that. */
    method Get(prompt: string, model: string, temperature: string, now: real) returns (r: Option<Entry>)
      requires Valid() && clock <= now
      modifies `memory, `order, `disk, `hits, `misses, `clock
      ensures Valid() && clock == now
      ensures var latest := Latest(log, RawKey(model, temperature, prompt));
              && (r.Some? <==> latest.Some? && now - latest.value.createdAt <= ttl as real)
              && (r.Some? ==>
                    && r.value.text == latest.value.text && r.value.model == latest.value.model
                    && r.value.tokensIn == latest.value.tokensIn && r.value.tokensOut == latest.value.tokensOut
                    && r.value.createdAt == latest.value.createdAt)
      ensures r.Some? ==>
                var key := RawKey(model, temperature, prompt);
                r.value.hits == if key in old(memory) then old(memory)[key].hits + 2 else 1
      ensures enabled ==>
                hits == old(hits) + (if r.Some? then 1 else 0) && misses == old(misses) + (if r.None? then 1 else 0)
      ensures !enabled ==> r == None && hits == old(hits) && misses == old(misses)
    {
      Later(memory, disk, log, clock, now, ttl);
      clock := now;
      if !enabled { return None; }
      var key := RawKey(model, temperature, prompt);
      OkOf(memory, disk, log, now, ttl, key);
      if key in memory {
        var entry := memory[key];
        if Expired(entry, now, ttl) {
          ForgetKey(key);
          misses := misses + 1;
          return None;
        }
        entry := entry.(hits := entry.hits + 2);
        Remember(key, entry);
        hits := hits + 1;
        return Some(entry);
      }
      if key in disk {
        var entry := disk[key];
        if Expired(entry, now, ttl) {
          Change(memory, disk, log, now, ttl, memory, disk - {key}, log, key);
          disk := disk - {key};
          misses := misses + 1;
          return None;
        }
        entry := entry.(hits := entry.hits + 1);
        Remember(key, entry);
        hits := hits + 1;
        return Some(entry);
      }
      misses := misses + 1;
      r := None;
    }

    /** `del self._memory[key]`, or popping a key that may be absent. */
    method ForgetKey(key: Key)
      requires Valid()
      modifies `memory, `order
      ensures Valid() && memory == old(memory) - {key} && order == Without(old(order), key)
    {
      RemoveInOrder(order, memory, key);
      Forget(memory, memory - {key}, disk, log, clock, ttl);
      memory, order := memory - {key}, Without(order, key);
    }

    /** Puts a counted entry back, or one just read from disk, and trims. */
    method Remember(key: Key, entry: Entry)
      requires Valid() && enabled && Latest(log, key) == Some(Fresh(entry))
      modifies `memory, `order
      ensures Valid() && Within(memory, old(memory)[key := entry])
      ensures EvictsLeast(Inserted(old(order), key), old(memory)[key := entry], memory)
    {
      OkOf(memory, disk, log, clock, ttl, key);
      Change(memory, disk, log, clock, ttl, memory[key := entry], disk, log, key);
      InsertInOrder(order, memory, key, entry);
      var all := memory[key := entry];
      var order', memory' := TrimMemory(Inserted(order, key), all, memorySize);
      Forget(all, memory', disk, log, clock, ttl);
      order, memory := order', memory';
    }

    method Set(prompt: string, model: string, text: string, tokensIn: int, tokensOut: int, temperature: string,
               now: real)
      requires Valid() && clock <= now
      modifies this
      ensures Valid() && clock == now && hits == old(hits) && misses == old(misses)
      ensures log == if enabled && |text| <= maxEntrySize
                     then old(log) + [Stored(RawKey(model, temperature, prompt),
                                             Entry(text, model, tokensIn, tokensOut, now, 0))]
                     else old(log)
      ensures enabled && |text| <= maxEntrySize ==> index == order
    {
      Later(memory, disk, log, clock, now, ttl);
      clock := now;
      if !enabled || |text| > maxEntrySize { return; }
      var key := RawKey(model, temperature, prompt);
      var entry := Entry(text, model, tokensIn, tokensOut, now, 0);
      ghost var log' := log + [Stored(key, entry)];
      StoreKeeps(memory, disk, log, now, ttl, key, entry);
      InsertInOrder(order, memory, key, entry);
      var all := memory[key := entry];
      var order', memory' := TrimMemory(Inserted(order, key), all, memorySize);
      Forget(all, memory', disk[key := entry], log', now, ttl);
      order, memory, disk, log := order', memory', disk[key := entry], log';
      index := order;
    }

    method Invalidate(prompt: string, model: string, temperature: string)
      requires Valid()
      modifies `memory, `order, `disk, `log
      ensures Valid()
      ensures log == if enabled then old(log) + [Dropped(RawKey(model, temperature, prompt))] else old(log)
    {
      var key := RawKey(model, temperature, prompt);
      RemoveInOrder(order, memory, key);
      ghost var log' := if enabled then log + [Dropped(key)] else log;
      DropKeeps(memory, disk, log, clock, ttl, key, enabled);
      memory, order, disk, log := memory - {key}, Without(order, key), disk - {key}, log';
    }

    /** Removes every file, the index too. */
    method Clear()
      requires Valid()
      modifies `memory, `order, `disk, `index, `hits, `misses, `log
      ensures Valid() && memory == map[] && disk == map[] && hits == 0 && misses == 0
      ensures log == if enabled then old(log) + [Wiped] else old(log)
    {
      ghost var log' := if enabled then log + [Wiped] else log;
      forall k ensures Latest(log', k) == None { LatestAfter(log, Wiped, k); }
      memory, order, disk, index, hits, misses, log := map[], [], map[], [], 0, 0, log';
    }

    /** A new engine over the same directory: memory is what the index brings back. */
    method Restart()
      requires Valid()
      modifies `memory, `order, `hits, `misses
      ensures Valid() && hits == 0 && misses == 0
      ensures forall k :: k in memory <==> enabled && k in index && k in disk
      ensures forall k :: k in memory ==> memory[k] == disk[k]
    {
      hits, misses, memory, order := 0, 0, map[], [];
      if !enabled { return; }
      var order', memory' := LoadIndex(LastKeys(index, memorySize), disk);
      order, memory := order', memory';
    }
  }

  lemma MemoryBounded(cache: CacheEngine)
    requires cache.Valid()
    ensures |cache.memory| <= cache.memorySize
  {
    KeysCounted(cache.order, cache.memory.Keys);
  }
}
