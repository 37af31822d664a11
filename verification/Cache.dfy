/**
 The cache as a value: what each operation of `Storage` does to the data, the recency order, the deadlines
 and the counters, and what holds of every state that operations reach.
 */
module CacheModel {
  import opened ByteStrings
  import opened Sequences
  import opened MapSums
  import opened Deadlines
  import Lru = LruOrder

  const MAX_KEY_SIZE: nat := 1024 * 1024
  const ENTRY_OVERHEAD: nat := 128
  const POINTER_SIZE: nat := 8

  datatype Meta = Meta(value: Bytes, size: nat)

  datatype Limits = Limits(memory: nat, maxValue: nat)

  /**
   A SET request. `capacity` is the capacity of the value's string; `buckets` is the size of the hash table's
   bucket array, should the key turn out to be new.
   */
  datatype Put = Put(key: Bytes, value: Bytes, capacity: nat, ttl: int, buckets: nat) {
    predicate Valid(buckets: nat) { |value| <= capacity && buckets <= this.buckets }
    function Accounted(): nat { capacity + ENTRY_OVERHEAD }
  }

  predicate CanStore(limits: Limits, key: Bytes, value: Bytes, capacity: nat) {
    && |key| <= MAX_KEY_SIZE && |value| <= limits.maxValue
    && capacity + ENTRY_OVERHEAD + |key| <= limits.memory
  }

  /** `order` is the eviction policy's view, most recently used first. */
  datatype Cache = Cache(
    data: map<Bytes, Meta>,
    order: seq<Lru.Item>,
    expiries: Expiries,
    buckets: nat,
    valueBytes: int,
    largest: nat,
    peak: nat,
    hits: nat,
    misses: nat,
    evictions: nat,
    expired: nat)

  function Max(a: nat, b: nat): nat { if a > b then a else b }

  function Used(c: Cache): nat { Lru.TotalCost(c.order) + c.buckets * POINTER_SIZE }

  function Payload(key: Bytes, m: Meta): nat { |m.value| }

  function Charge(key: Bytes, m: Meta): nat { |key| + m.size }

  // ---------------------------------------------------------------- the operations, step by step

  /** The value and its size go into the table and to the policy. */
  function Store(c: Cache, p: Put): Cache {
    var old_payload := if p.key in c.data then |c.data[p.key].value| else 0;
    c.(data := c.data[p.key := Meta(p.value, p.Accounted())],
       order := Lru.Add(c.order, p.key, p.Accounted()),
       buckets := if p.key in c.data then c.buckets else p.buckets,
       valueBytes := c.valueBytes - old_payload + |p.value|,
       largest := Max(c.largest, |p.value|))
  }

  function Schedule(c: Cache, key: Bytes, ttl: int, now: nat): Cache {
    c.(expiries := SetDeadline(c.expiries, key, ttl, now))
  }

  function NotePeak(c: Cache): Cache { c.(peak := Max(c.peak, Used(c))) }

  /** `key` leaves the table, if it is there. */
  function Unstore(c: Cache, key: Bytes): Cache {
    if key in c.data then c.(data := c.data - {key}, valueBytes := c.valueBytes - |c.data[key].value|) else c
  }

  function Unschedule(c: Cache, key: Bytes): Cache { c.(expiries := c.expiries - {key}) }

  function Forget(c: Cache, key: Bytes): Cache { Unstore(c, key).(order := Lru.Remove(c.order, key)) }

  function Victim(c: Cache): Bytes
    requires c.order != []
  {
    c.order[|c.order| - 1].key
  }

  /** The policy's victim leaves the policy and the table. */
  function EvictData(c: Cache): Cache
    requires c.order != []
  {
    Unstore(c, Victim(c)).(order := Lru.Evict(c.order), evictions := c.evictions + 1)
  }

  function EvictOne(c: Cache): Cache
    requires c.order != []
  {
    Unschedule(EvictData(c), Victim(c))
  }

  function EvictLoop(c: Cache, limit: nat): Cache
    decreases |c.order|
  {
    if c.order == [] || Used(c) <= limit then c else EvictLoop(EvictOne(c), limit)
  }

  function Set(c: Cache, limits: Limits, p: Put, now: nat): Cache {
    if CanStore(limits, p.key, p.value, p.capacity)
    then EvictLoop(NotePeak(Schedule(Store(c, p), p.key, p.ttl, now)), limits.memory)
    else c
  }

  function Get(c: Cache, key: Bytes, now: nat): (Cache, Option<Bytes>) {
    if Expired(c.expiries, key, now) then
      var c1 := Unschedule(c, key);
      var c2 := if key in c.data then Forget(c1, key) else c1;
      (c2.(expired := c.expired + 1, misses := c.misses + 1), None)
    else if key !in c.data then
      (c.(misses := c.misses + 1), None)
    else
      (c.(order := Lru.Touch(c.order, key), hits := c.hits + 1), Some(c.data[key].value))
  }

  function Del(c: Cache, key: Bytes): (Cache, bool) {
    if key in c.data then (Unschedule(Forget(c, key), key), true) else (c, false)
  }

  /** The sweeper's callback on a key it has collected. */
  function ExpireKey(c: Cache, key: Bytes): Cache {
    if key in c.data then Forget(c, key).(expired := c.expired + 1) else c
  }

  /** The sweeper takes the deadlines that have passed. */
  function AfterCollect(c: Cache, now: nat): Cache {
    c.(expiries := c.expiries - ExpiredKeys(c.expiries, now))
  }

  const EMPTY: Cache := Cache(map[], [], map[], 0, 0, 0, 0, 0, 0, 0, 0)

  // ---------------------------------------------------------------- consistency

  /** The table and the policy hold the same keys with the same sizes. */
  ghost predicate Agrees(data: map<Bytes, Meta>, order: seq<Lru.Item>) {
    && Lru.Unique(order)
    && (forall x :: x in order ==> x.key in data && data[x.key].size == x.size)
    && (forall k :: k in data ==> Lru.Item(k, data[k].size) in order)
  }

  ghost predicate Consistent(c: Cache) {
    Agrees(c.data, c.order) && c.valueBytes == SumMap(Payload, c.data)
  }

  ghost predicate WithinBudget(c: Cache, limit: nat) { c.data == map[] || Used(c) <= limit }

  lemma AddAgrees(data: map<Bytes, Meta>, order: seq<Lru.Item>, key: Bytes, m: Meta)
    requires Agrees(data, order)
    ensures Agrees(data[key := m], Lru.Add(order, key, m.size))
  {
    hide Lru.Unique, Lru.Add;
    Lru.AddEffect(order, key, m.size);
    var data', order' := data[key := m], Lru.Add(order, key, m.size);
    forall x | x in order' ensures x.key in data' && data'[x.key].size == x.size {
      if x != Lru.Item(key, m.size) { assert x in order; }
    }
    forall k | k in data' ensures Lru.Item(k, data'[k].size) in order' {
      if k != key { assert Lru.Item(k, data[k].size) in order; }
    }
  }

  lemma RemoveAgrees(data: map<Bytes, Meta>, order: seq<Lru.Item>, key: Bytes)
    requires Agrees(data, order)
    ensures Agrees(data - {key}, Lru.Remove(order, key))
  {
    Lru.RemoveEffect(order, key);
    hide Lru.Unique, Lru.Remove;
  }

  lemma EvictAgrees(data: map<Bytes, Meta>, order: seq<Lru.Item>)
    requires Agrees(data, order) && order != []
    ensures order[|order| - 1].key in data && Agrees(data - {order[|order| - 1].key}, Lru.Evict(order))
  {
    var x := order[|order| - 1];
    assert x in order;
    Lru.EvictEffect(order);
    assert forall y :: y in order && y != x ==> y.key != x.key;
    hide Lru.Unique, Lru.Evict;
  }

  lemma StoreConsistent(c: Cache, p: Put)
    requires Consistent(c)
    ensures Consistent(Store(c, p))
  {
    hide Agrees, Lru.Add;
    var m := Meta(p.value, p.Accounted());
    AddAgrees(c.data, c.order, p.key, m);
    if p.key in c.data {
      SumMapRemove(Payload, c.data, p.key);
      SumMapAdd(Payload, c.data, p.key, m);
    } else {
      SumMapInsert(Payload, c.data, p.key, m);
    }
  }

  lemma ForgetConsistent(c: Cache, key: Bytes)
    requires Consistent(c)
    ensures Consistent(Forget(c, key))
  {
    hide Agrees, Lru.Remove;
    RemoveAgrees(c.data, c.order, key);
    if key in c.data { SumMapRemove(Payload, c.data, key); } else { assert c.data - {key} == c.data; }
  }

  lemma EvictConsistent(c: Cache)
    requires Consistent(c) && c.order != []
    ensures Victim(c) in c.data && Consistent(EvictData(c)) && Consistent(EvictOne(c))
  {
    hide Agrees, Lru.Evict;
    EvictAgrees(c.data, c.order);
    SumMapRemove(Payload, c.data, Victim(c));
  }

  lemma ScheduleConsistent(c: Cache, key: Bytes, ttl: int, now: nat)
    requires Consistent(c)
    ensures Consistent(NotePeak(Schedule(c, key, ttl, now)))
  {
  }

  lemma TouchConsistent(c: Cache, key: Bytes)
    requires Consistent(c)
    ensures Consistent(c.(order := Lru.Touch(c.order, key)))
  {
    Lru.TouchEffect(c.order, key);
    hide Lru.Unique, Lru.Touch;
  }

  lemma EmptyTogether(c: Cache)
    requires Consistent(c)
    ensures c.order == [] <==> c.data == map[]
  {
    if c.order != [] { assert c.order[0] in c.order; }
  }

  /** The eviction loop keeps the table and the policy together and ends within the budget. */
  lemma {:induction false} EvictLoopConsistent(c: Cache, limit: nat)
    requires Consistent(c)
    ensures Consistent(EvictLoop(c, limit)) && WithinBudget(EvictLoop(c, limit), limit)
    decreases |c.order|
  {
    EmptyTogether(c);
    if c.order != [] && Used(c) > limit {
      EvictConsistent(c);
      EvictLoopConsistent(EvictOne(c), limit);
    }
  }

  // ---------------------------------------------------------------- accounting and the budget

  /** What the policy has charged is the key length plus the accounted size of every stored key. */
  lemma {:induction false} UsedIsSum(data: map<Bytes, Meta>, order: seq<Lru.Item>)
    requires Agrees(data, order)
    ensures Lru.TotalCost(order) == SumMap(Charge, data)
    decreases |order|
  {
    if order == [] {
      assert data == map[];
    } else {
      var x := order[|order| - 1];
      assert x in order;
      EvictAgrees(data, order);
      UsedIsSum(data - {x.key}, Lru.Evict(order));
      SumMapRemove(Charge, data, x.key);
      SumErase(Lru.Cost, order, |order| - 1);
      assert Erase(order, |order| - 1) == Lru.Evict(order);
    }
  }

  /** Every operation keeps the table and the policy together, and leaves the cache within its budget. */
  lemma SetKeeps(c: Cache, limits: Limits, p: Put, now: nat)
    requires Consistent(c) && WithinBudget(c, limits.memory) && p.Valid(c.buckets)
    ensures Consistent(Set(c, limits, p, now)) && WithinBudget(Set(c, limits, p, now), limits.memory)
  {
    hide Store, EvictLoop;
    StoreConsistent(c, p);
    EvictLoopConsistent(NotePeak(Schedule(Store(c, p), p.key, p.ttl, now)), limits.memory);
  }

  /** The policy charges less once a key is gone. */
  lemma RemoveCost(order: seq<Lru.Item>, key: Bytes)
    ensures Lru.TotalCost(Lru.Remove(order, key)) <= Lru.TotalCost(order)
  {
    var i := Lru.Find(order, key);
    if i < |order| { SumErase(Lru.Cost, order, i); }
  }

  lemma ForgetKeeps(c: Cache, key: Bytes, limit: nat)
    requires Consistent(c) && WithinBudget(c, limit)
    ensures Consistent(Forget(c, key)) && WithinBudget(Forget(c, key), limit)
  {
    ForgetConsistent(c, key);
    RemoveCost(c.order, key);
    if c.data == map[] { assert Forget(c, key).data == map[]; }
  }

  lemma GetKeeps(c: Cache, key: Bytes, now: nat, limit: nat)
    requires Consistent(c) && WithinBudget(c, limit)
    ensures Consistent(Get(c, key, now).0) && WithinBudget(Get(c, key, now).0, limit)
  {
    hide Consistent, Forget, WithinBudget, Lru.Touch;
    SameConsistent(c, Unschedule(c, key), limit);
    ForgetKeeps(Unschedule(c, key), key, limit);
    TouchKeeps(c, key, limit);
    var c2 := if key in c.data then Forget(Unschedule(c, key), key) else Unschedule(c, key);
    SameConsistent(c2, c2.(expired := c.expired + 1, misses := c.misses + 1), limit);
    SameConsistent(c, c.(misses := c.misses + 1), limit);
    var c3 := c.(order := Lru.Touch(c.order, key));
    SameConsistent(c3, c3.(hits := c.hits + 1), limit);
  }

  lemma SameConsistent(c: Cache, c': Cache, limit: nat)
    requires Consistent(c) && WithinBudget(c, limit)
    requires c'.data == c.data && c'.order == c.order && c'.buckets == c.buckets && c'.valueBytes == c.valueBytes
    ensures Consistent(c') && WithinBudget(c', limit)
  {
  }

  lemma TouchKeeps(c: Cache, key: Bytes, limit: nat)
    requires Consistent(c) && WithinBudget(c, limit)
    ensures var c' := c.(order := Lru.Touch(c.order, key)); Consistent(c') && WithinBudget(c', limit)
  {
    TouchConsistent(c, key);
    var i := Lru.Find(c.order, key);
    if i < |c.order| {
      SumErase(Lru.Cost, c.order, i);
      Lru.FrontCost(c.order[i], Erase(c.order, i));
    }
  }

  lemma DelKeeps(c: Cache, key: Bytes, limit: nat)
    requires Consistent(c) && WithinBudget(c, limit)
    ensures Consistent(Del(c, key).0) && WithinBudget(Del(c, key).0, limit)
  {
    hide Consistent, Forget, WithinBudget;
    ForgetKeeps(c, key, limit);
    SameConsistent(Forget(c, key), Unschedule(Forget(c, key), key), limit);
  }

  lemma ExpireKeeps(c: Cache, key: Bytes, limit: nat)
    requires Consistent(c) && WithinBudget(c, limit)
    ensures Consistent(ExpireKey(c, key)) && WithinBudget(ExpireKey(c, key), limit)
  {
    hide Consistent, Forget, WithinBudget;
    ForgetKeeps(c, key, limit);
    SameConsistent(Forget(c, key), Forget(c, key).(expired := c.expired + 1), limit);
  }

  // ---------------------------------------------------------------- who survives an eviction

  /** Whether the `n` most recent items, with the bucket array, fit the limit. */
  predicate Fits(order: seq<Lru.Item>, n: nat, buckets: nat, limit: nat)
    requires n <= |order|
  {
    Lru.TotalCost(order[..n]) + buckets * POINTER_SIZE <= limit
  }

  lemma PrefixCost(order: seq<Lru.Item>, n: nat)
    requires n <= |order|
    ensures Lru.TotalCost(order[..n]) <= Lru.TotalCost(order)
  {
    assert order == order[..n] + order[n..];
    SumConcat(Lru.Cost, order[..n], order[n..]);
  }

  /** The survivors of the loop are the longest prefix of the recency order that fits. */
  lemma {:induction false} Survivors(c: Cache, limit: nat)
    ensures var r := EvictLoop(c, limit);
            && |r.order| <= |c.order| && r.order == c.order[..|r.order|]
            && forall n :: 0 < n <= |c.order| ==> (n <= |r.order| <==> Fits(c.order, n, c.buckets, limit))
    decreases |c.order|
  {
    var r := EvictLoop(c, limit);
    if c.order != [] && Used(c) > limit {
      var c' := EvictOne(c);
      Survivors(c', limit);
      assert r.order == c'.order[..|r.order|] == c.order[..|r.order|];
      forall n | 0 < n <= |c.order| ensures n <= |r.order| <==> Fits(c.order, n, c.buckets, limit) {
        if n == |c.order| {
          assert c.order[..n] == c.order;
        } else {
          assert c'.order[..n] == c.order[..n];
          assert Fits(c'.order, n, c.buckets, limit) <==> Fits(c.order, n, c.buckets, limit);
        }
      }
    } else {
      assert c.order[..|c.order|] == c.order;
      forall n | 0 < n <= |c.order| ensures Fits(c.order, n, c.buckets, limit) { PrefixCost(c.order, n); }
    }
  }

  /**
   The survivors by the policy's history: an item survives exactly if it fits the limit together with the bucket array
   and every item used since it was.
   */
  lemma SurvivorsByUse(ops: seq<Lru.Op>, c: Cache, limit: nat, x: Lru.Item)
    requires c.order == Lru.Replay(ops) && x in c.order
    ensures x in EvictLoop(c, limit).order <==>
            Lru.CostSince(ops, c.order, Lru.LastUse(ops, x.key)) + c.buckets * POINTER_SIZE <= limit
  {
    hide EvictLoop, Lru.CostSince, Lru.LastUse, Lru.TotalCost;
    var r := EvictLoop(c, limit);
    var i: nat :| i < |c.order| && c.order[i] == x;
    Lru.OrderIsRecency(ops);
    Lru.UniqueByRecency(ops, c.order);
    Lru.FrontIsRecent(ops, c.order, i);
    Survivors(c, limit);
    assert i + 1 <= |r.order| <==> Fits(c.order, i + 1, c.buckets, limit);
    if i < |r.order| { assert r.order[i] == x; }
  }

  /** `r` is `c` after dropping some keys with their deadlines, each counted as an eviction. */
  ghost predicate Evicted(c: Cache, r: Cache) {
    && r.data.Keys <= c.data.Keys && (forall k :: k in r.data ==> r.data[k] == c.data[k])
    && r.expiries == c.expiries - (c.data.Keys - r.data.Keys)
    && r.evictions + |r.data| == c.evictions + |c.data|
    && r.buckets == c.buckets && r.largest == c.largest && r.peak == c.peak
    && r.hits == c.hits && r.misses == c.misses && r.expired == c.expired
  }

  lemma EvictedTrans(a: Cache, b: Cache, c: Cache)
    requires Evicted(a, b) && Evicted(b, c)
    ensures Evicted(a, c)
  {
    SubtractTwice(a.expiries, a.data.Keys, b.data.Keys, c.data.Keys);
    var m, n := b.data, c.data;
    forall k | k in n ensures n[k] == a.data[k] { assert k in m; }
  }

  lemma SubtractTwice<K, V>(m: map<K, V>, a: set<K>, b: set<K>, c: set<K>)
    requires c <= b <= a
    ensures m - (a - b) - (b - c) == m - (a - c)
  {
  }

  lemma EvictOneEvicted(c: Cache)
    requires Consistent(c) && c.order != []
    ensures Evicted(c, EvictOne(c))
  {
    hide Consistent, Lru.Evict;
    EvictConsistent(c);
    WithoutOne(c.data, Victim(c));
  }

  lemma WithoutOne<V>(m: map<Bytes, V>, k: Bytes)
    requires k in m
    ensures m.Keys - (m - {k}).Keys == {k} && |m - {k}| == |m| - 1 && (m - {k}).Keys <= m.Keys
  {
    assert (m - {k}).Keys == m.Keys - {k};
  }

  /** The loop drops exactly the keys that leave the order, with their deadlines, and counts them. */
  lemma {:induction false} EvictLoopEffect(c: Cache, limit: nat)
    requires Consistent(c)
    ensures Evicted(c, EvictLoop(c, limit))
    decreases |c.order|
  {
    hide Evicted, Consistent, EvictOne;
    if c.order != [] && Used(c) > limit {
      assert |EvictOne(c).order| < |c.order| by { Shorter(c); }
      EvictConsistent(c);
      EvictOneEvicted(c);
      EvictLoopEffect(EvictOne(c), limit);
      EvictedTrans(c, EvictOne(c), EvictLoop(EvictOne(c), limit));
    } else {
      NothingEvicted(c);
    }
  }

  lemma Shorter(c: Cache)
    requires c.order != []
    ensures |EvictOne(c).order| == |c.order| - 1
  {
  }

  lemma NothingEvicted(c: Cache)
    ensures Evicted(c, c)
  {
    assert c.expiries - (c.data.Keys - c.data.Keys) == c.expiries;
  }

  /** An accepted SET keeps its own key exactly when the key's cost and the bucket array fit the limit. */
  lemma NewKeySurvives(c: Cache, limits: Limits, p: Put, now: nat)
    requires Consistent(c) && CanStore(limits, p.key, p.value, p.capacity)
    ensures var r, b := Set(c, limits, p, now), Store(c, p).buckets;
            && (p.key in r.data <==> |p.key| + p.Accounted() + b * POINTER_SIZE <= limits.memory)
            && (p.key in r.data ==> r.data[p.key] == Meta(p.value, p.Accounted()))
  {
    hide Consistent, EvictLoop;
    var s := NotePeak(Schedule(Store(c, p), p.key, p.ttl, now));
    var r := EvictLoop(s, limits.memory);
    var x := Lru.Item(p.key, p.Accounted());
    StoreConsistent(c, p);
    ScheduleConsistent(Store(c, p), p.key, p.ttl, now);
    EvictLoopConsistent(s, limits.memory);
    Survivors(s, limits.memory);
    EvictLoopEffect(s, limits.memory);
    FirstFits(s.order, x, s.buckets, limits.memory);
    OnlyItem(r, s, x);
    if p.key in r.data { KeptAsStored(s, r, p.key); }
  }

  /** The deadline of a key: that of a positive duration from `now`, and none for any other. */
  ghost predicate DueAfter(expiries: Expiries, key: Bytes, ttl: int, now: nat) {
    if ttl > 0 then key in expiries && expiries[key] == now + ttl * 1_000_000_000 else key !in expiries
  }

  /** `key` has the same value, size and deadline in `r` as in `c`. */
  ghost predicate SameEntry(c: Cache, r: Cache, key: Bytes) {
    && key in c.data && key in r.data && r.data[key] == c.data[key]
    && (key in r.expiries <==> key in c.expiries) && (key in r.expiries ==> r.expiries[key] == c.expiries[key])
  }

  /** Before any eviction. */
  lemma StoredEntries(c: Cache, p: Put, now: nat)
    ensures var s := NotePeak(Schedule(Store(c, p), p.key, p.ttl, now));
            && p.key in s.data && s.data[p.key].value == p.value && DueAfter(s.expiries, p.key, p.ttl, now)
            && forall k :: k in s.data && k != p.key ==> SameEntry(c, s, k)
  {
    hide Lru.Add;
  }

  /** After an accepted SET its key, if stored, has the new value and deadline, and every other key left its own. */
  lemma SetEntries(c: Cache, limits: Limits, p: Put, now: nat)
    requires Consistent(c) && CanStore(limits, p.key, p.value, p.capacity)
    ensures var r := Set(c, limits, p, now);
            && (p.key in r.data ==> r.data[p.key].value == p.value && DueAfter(r.expiries, p.key, p.ttl, now))
            && forall k :: k in r.data && k != p.key ==> SameEntry(c, r, k)
  {
    hide Consistent, EvictLoop, Store, Evicted;
    var s := NotePeak(Schedule(Store(c, p), p.key, p.ttl, now));
    var r := EvictLoop(s, limits.memory);
    StoreConsistent(c, p);
    ScheduleConsistent(Store(c, p), p.key, p.ttl, now);
    EvictLoopEffect(s, limits.memory);
    StoredEntries(c, p, now);
    hide NotePeak, Schedule;
    forall k | k in r.data ensures SameEntry(s, r, k) { EvictedKeeps(s, r, k); }
  }

  lemma EvictedKeeps(c: Cache, r: Cache, key: Bytes)
    requires Evicted(c, r) && key in r.data
    ensures SameEntry(c, r, key)
  {
    assert key in r.data.Keys;
  }

  lemma FirstFits(order: seq<Lru.Item>, x: Lru.Item, buckets: nat, limit: nat)
    requires order != [] && order[0] == x
    ensures Fits(order, 1, buckets, limit) <==> Lru.Cost(x) + buckets * POINTER_SIZE <= limit
  {
    assert order[..1] == [x] + [];
    Lru.FrontCost(x, []);
  }

  lemma KeptAsStored(s: Cache, r: Cache, key: Bytes)
    requires Evicted(s, r) && key in r.data
    ensures key in s.data && r.data[key] == s.data[key]
  {
  }

  lemma OnlyItem(r: Cache, s: Cache, x: Lru.Item)
    requires Consistent(r) && Consistent(s) && s.order != [] && s.order[0] == x
    requires |r.order| <= |s.order| && r.order == s.order[..|r.order|]
    ensures x.key in r.data <==> |r.order| >= 1
  {
    if |r.order| >= 1 {
      assert r.order[0] == x && x in r.order;
    } else {
      EmptyTogether(r);
    }
  }

  /** Which keys are left after an accepted SET, by the history of use that ends with its own. */
  lemma SetSurvivors(ops: seq<Lru.Op>, c: Cache, limits: Limits, p: Put, now: nat, x: Lru.Item)
    requires Consistent(c) && CanStore(limits, p.key, p.value, p.capacity) && c.order == Lru.Replay(ops)
    requires x in Store(c, p).order
    ensures var s, later := Store(c, p), ops + [Lru.DoAdd(p.key, p.Accounted())];
            x.key in Set(c, limits, p, now).data <==>
            Lru.CostSince(later, s.order, Lru.LastUse(later, x.key)) + s.buckets * POINTER_SIZE <= limits.memory
  {
    hide Consistent, EvictLoop, Lru.CostSince, Lru.LastUse, Lru.Add;
    var later := ops + [Lru.DoAdd(p.key, p.Accounted())];
    var s := NotePeak(Schedule(Store(c, p), p.key, p.ttl, now));
    assert later[..|ops|] == ops;
    StoreConsistent(c, p);
    ScheduleConsistent(Store(c, p), p.key, p.ttl, now);
    EvictLoopConsistent(s, limits.memory);
    SurvivorsByUse(later, s, limits.memory, x);
    Survivors(s, limits.memory);
    StoredWhileListed(s, EvictLoop(s, limits.memory), x);
  }

  lemma StoredWhileListed(s: Cache, r: Cache, x: Lru.Item)
    requires Consistent(s) && Consistent(r) && x in s.order
    requires |r.order| <= |s.order| && r.order == s.order[..|r.order|]
    ensures x.key in r.data <==> x in r.order
  {
  }

  /**
   `CanStore` leaves out the bucket array, so an accepted SET can evict its own key, at the least limit the program
   runs with and with a single bucket.
   */
  lemma AcceptedSetCanEvictItself(value: Bytes, buckets: nat)
    requires |value| == 1024 * 1024 - 129 && buckets >= 1
    ensures var c, limits := EMPTY.(buckets := buckets), Limits(1024 * 1024, 1024 * 1024);
            var p := Put("k", value, |value|, 0, buckets);
            && Consistent(c) && p.Valid(c.buckets) && CanStore(limits, p.key, p.value, p.capacity)
            && p.key !in Set(c, limits, p, 0).data
  {
    var c, limits := EMPTY.(buckets := buckets), Limits(1024 * 1024, 1024 * 1024);
    var p := Put("k", value, |value|, 0, buckets);
    assert Consistent(c);
    NewKeySurvives(c, limits, p, 0);
  }
}
