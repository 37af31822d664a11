/** The cache server's storage: a table, an LRU policy, a deadline table and counters, updated together. */
module StorageEngine {
  import opened ByteStrings
  import opened MapSums
  import opened Sequences
  import opened Deadlines
  import opened TtlTable
  import opened CacheModel
  import opened LruPolicy
  import Lru = LruOrder

  class Storage {
    const limits: Limits
    const policy: LRU
    const ttl: TTLManager
    var data: map<Bytes, Meta>
    var buckets: nat
    var hits: nat
    var misses: nat
    var evictions: nat
    var expiredKeys: nat
    var valueBytes: nat
    var largestItemBytes: nat
    var usedMemoryPeak: nat

    ghost function Repr(): set<object>
      reads this, policy
    {
      {this, ttl} + policy.Repr()
    }

    /** The abstract value. */
    ghost function Abs(): Cache
      reads this, policy, policy.list, ttl
    {
      Cache(data, policy.Items(), ttl.expiries, buckets, valueBytes, largestItemBytes, usedMemoryPeak,
            hits, misses, evictions, expiredKeys)
    }

    /** What holds throughout an operation. */
    ghost predicate Intact()
      reads this, policy, policy.list, ttl
    {
      policy.Valid() && policy.Recorded() && Consistent(Abs())
    }

    /** What holds between operations. */
    ghost predicate Valid()
      reads this, policy, policy.list, ttl
    {
      Intact() && WithinBudget(Abs(), limits.memory)
    }

    constructor (memoryLimit: nat, maxValueSize: nat, buckets: nat)
      ensures Valid() && Abs() == EMPTY.(buckets := buckets) && limits == Limits(memoryLimit, maxValueSize)
      ensures fresh(Repr())
    {
      limits := Limits(memoryLimit, maxValueSize);
      policy := new LRU();
      ttl := new TTLManager();
      data, this.buckets := map[], buckets;
      hits, misses, evictions, expiredKeys := 0, 0, 0, 0;
      valueBytes, largestItemBytes, usedMemoryPeak := 0, 0, 0;
    }

    lemma AbsConsistent()
      requires Valid()
      ensures Consistent(Abs())
    {
    }

    /** The policy's list is the live keys by their last use among all the operations it was asked for. */
    lemma OrderIsHistory()
      requires Valid()
      ensures Abs().order == Lru.Replay(policy.ops) && Lru.ByRecency(policy.ops, Abs().order)
    {
      Lru.OrderIsRecency(policy.ops);
    }

    method UsedMemory() returns (bytes: nat)
      requires policy.Valid()
      ensures bytes == Used(Abs())
    {
      var charged := policy.MemoryUsed();
      return charged + buckets * POINTER_SIZE;
    }

    /** The table, the payload counters and the policy take the new value. */
    method StoreValue(p: Put)
      requires Intact() && p.Valid(buckets)
      modifies Repr()
      ensures Intact() && Abs() == Store(old(Abs()), p) && fresh(Repr() - old(Repr()))
    {
      hide Consistent, Lru.Add, LRU.Valid, LRU.Items, LRU.Recorded;
      StoreConsistent(Abs(), p);
      TotalIsSum();
      StorePayload(p);
      policy.Add(p.key, p.Accounted());
    }

    method StorePayload(p: Put)
      requires valueBytes == SumMap(Payload, data)
      modifies this`data, this`buckets, this`valueBytes, this`largestItemBytes
      ensures data == old(data)[p.key := Meta(p.value, p.Accounted())]
      ensures buckets == if p.key in old(data) then old(buckets) else p.buckets
      ensures valueBytes == old(valueBytes) + |p.value| - if p.key in old(data) then |old(data)[p.key].value| else 0
      ensures largestItemBytes == Max(old(largestItemBytes), |p.value|)
    {
      var payload := |p.value|;
      if p.key !in data {
        valueBytes := valueBytes + payload;
        data := data[p.key := Meta(p.value, p.Accounted())];
        buckets := p.buckets;
      } else {
        SumMapRemove(Payload, data, p.key);
        valueBytes := valueBytes - |data[p.key].value|;
        valueBytes := valueBytes + payload;
        data := data[p.key := Meta(p.value, p.Accounted())];
      }
      largestItemBytes := Max(largestItemBytes, payload);
    }

    /** `value_bytes_ -= ...; data_.erase(it);` */
    method EraseValue(key: Bytes)
      requires key in data && valueBytes == SumMap(Payload, data)
      modifies this`data, this`valueBytes
      ensures data == old(data) - {key} && valueBytes == old(valueBytes) - |old(data)[key].value|
    {
      SumMapRemove(Payload, data, key);
      valueBytes := valueBytes - |data[key].value|;
      data := data - {key};
    }

    /** One turn of the eviction loop. */
    method EvictVictim()
      requires Intact() && data != map[]
      modifies Repr()
      ensures Intact() && old(Abs()).order != [] && Abs() == EvictOne(old(Abs())) && Repr() <= old(Repr())
    {
      hide Consistent, Lru.Evict, LRU.Valid, LRU.Items, LRU.Recorded;
      EmptyTogether(Abs());
      EvictConsistent(Abs());
      TotalIsSum();
      var victim := policy.Evict();
      if victim !in data {
        assert false;
        return;
      }
      EraseValue(victim);
      ttl.Erase(victim);
      evictions := evictions + 1;
    }

    lemma TotalIsSum()
      requires Intact()
      ensures valueBytes == SumMap(Payload, data)
    {
    }

    /** Evicts until the budget is met or the table is empty. */
    method EvictIfOverLimit()
      requires Intact()
      modifies Repr()
      ensures Valid() && Abs() == EvictLoop(old(Abs()), limits.memory) && Repr() <= old(Repr())
    {
      hide Consistent, LRU.Valid, LRU.Items, LRU.Recorded;
      ghost var c := Abs();
      EvictLoopConsistent(c, limits.memory);
      EmptyTogether(c);
      var used := UsedMemory();
      while data != map[] && used > limits.memory
        invariant Intact() && used == Used(Abs()) && Repr() <= old(Repr())
        invariant EvictLoop(Abs(), limits.memory) == EvictLoop(c, limits.memory)
        invariant Abs().order == [] <==> data == map[]
        decreases |policy.Items()|
      {
        Shorter(Abs());
        EvictVictim();
        EmptyTogether(Abs());
        used := UsedMemory();
      }
    }

    method Set(p: Put, now: nat) returns (ok: bool)
      requires Valid() && p.Valid(buckets)
      modifies Repr()
      ensures Valid() && Abs() == CacheModel.Set(old(Abs()), limits, p, now) && fresh(Repr() - old(Repr()))
      ensures ok == CanStore(limits, p.key, p.value, p.capacity)
    {
      hide Consistent, Store, EvictLoop, LRU.Valid, LRU.Items, LRU.Recorded;
      if !CanStore(limits, p.key, p.value, p.capacity) {
        return false;
      }
      StoreValue(p);
      if p.ttl > 0 {
        ttl.SetTtl(p.key, p.ttl, now);
      } else {
        ttl.Erase(p.key);
      }
      var used := UsedMemory();
      usedMemoryPeak := if usedMemoryPeak > used then usedMemoryPeak else used;
      ScheduleConsistent(Store(old(Abs()), p), p.key, p.ttl, now);
      EvictIfOverLimit();
      return true;
    }

    /** Erases a key from the table and the policy. */
    method ForgetKey(key: Bytes)
      requires Intact() && key in data
      modifies this`data, this`valueBytes, policy
      ensures Intact() && Abs() == Forget(old(Abs()), key) && Repr() <= old(Repr())
    {
      hide Consistent, LRU.Valid, LRU.Items, LRU.Recorded, SumMap, Lru.Remove, Payload;
      ForgetConsistent(Abs(), key);
      TotalIsSum();
      EraseValue(key);
      policy.Remove(key);
    }

    method Get(key: Bytes, now: nat) returns (r: Option<Bytes>)
      requires Valid()
      modifies Repr()
      ensures Valid() && (Abs(), r) == CacheModel.Get(old(Abs()), key, now) && Repr() <= old(Repr())
    {
      hide Consistent, WithinBudget, Forget, LRU.Valid, LRU.Items, LRU.Recorded;
      GetKeeps(Abs(), key, now, limits.memory);
      var expired := ttl.IsExpired(key, now);
      if expired {
        SameConsistent(old(Abs()), Abs(), limits.memory);
        Lapse(key);
        return None;
      }
      if key !in data {
        misses := misses + 1;
        return None;
      }
      var value := Hit(key);
      return Some(value);
    }

    method Hit(key: Bytes) returns (value: Bytes)
      requires Intact() && key in data
      modifies this`hits, policy
      ensures policy.Valid() && policy.Recorded() && Repr() == old(Repr()) && value == data[key].value
      ensures Abs() == old(Abs()).(order := Lru.Touch(old(Abs()).order, key), hits := old(hits) + 1)
    {
      hide Consistent, LRU.Valid, LRU.Items, LRU.Recorded;
      policy.Touch(key);
      hits := hits + 1;
      return data[key].value;
    }

    /** The deadline has just been found passed and erased. */
    method Lapse(key: Bytes)
      requires Intact()
      modifies this`data, this`valueBytes, this`expiredKeys, this`misses, policy
      ensures Intact() && Repr() <= old(Repr())
      ensures Abs() == (if key in old(data) then Forget(old(Abs()), key) else old(Abs())).(
                       expired := old(expiredKeys) + 1, misses := old(misses) + 1)
    {
      hide Consistent, Forget, LRU.Valid, LRU.Items, LRU.Recorded;
      if key in data {
        ForgetKey(key);
      }
      expiredKeys := expiredKeys + 1;
      misses := misses + 1;
      Recount(old(Abs()), key, Abs());
    }

    lemma Recount(c: Cache, key: Bytes, c': Cache)
      requires Consistent(c)
      requires var d := if key in c.data then Forget(c, key) else c;
               c'.data == d.data && c'.order == d.order && c'.valueBytes == d.valueBytes
      ensures Consistent(c')
    {
      hide Forget;
      ForgetConsistent(c, key);
    }

    method Del(key: Bytes) returns (removed: bool)
      requires Valid()
      modifies Repr()
      ensures Valid() && (Abs(), removed) == CacheModel.Del(old(Abs()), key) && Repr() <= old(Repr())
    {
      hide Consistent, WithinBudget, Forget, LRU.Valid, LRU.Items, LRU.Recorded;
      DelKeeps(Abs(), key, limits.memory);
      if key !in data {
        return false;
      }
      ForgetKey(key);
      ttl.Erase(key);
      return true;
    }

    /** The sweeper's first phase, under the deadline table's lock alone: `keys` are to be called back. */
    method CollectExpired(now: nat) returns (keys: seq<Bytes>)
      requires Valid()
      modifies ttl
      ensures Valid() && Abs() == AfterCollect(old(Abs()), now) && Repr() == old(Repr())
      ensures Distinct(keys) && (set k | k in keys) == ExpiredKeys(old(Abs()).expiries, now)
    {
      hide Agrees, Distinct;
      keys := ttl.CollectExpired(now);
    }

    /** The sweeper's callback. */
    method Expire(key: Bytes)
      requires Valid()
      modifies Repr()
      ensures Valid() && Abs() == ExpireKey(old(Abs()), key) && Repr() <= old(Repr())
    {
      hide Consistent, WithinBudget, Forget, LRU.Valid, LRU.Items, LRU.Recorded;
      ExpireKeeps(Abs(), key, limits.memory);
      if key !in data {
        return;
      }
      ForgetKey(key);
      expiredKeys := expiredKeys + 1;
    }
  }
}
