/**
 The sweeper thread against client operations, as interleaved atomic steps.

 A client operation holds the storage lock from its first step to its last, but takes the deadline table's lock
 anew for each access, so the sweeper can collect in between. The sweeper collects under the table's lock alone and
 calls back, key by key, under the storage lock. The clock only moves forward.
 */
module SweeperProtocol {
  import opened ByteStrings
  import opened Sequences
  import opened Deadlines
  import opened CacheModel
  import Lru = LruOrder

  /** What the holder of the storage lock has still to do. */
  datatype Phase =
    | Idle
    | Scheduling(put: Put)                                  // SET: value stored, deadline still to be written
    | Evicting                                              // SET: deadline written, budget still to be met
    | Unscheduling(victim: Bytes)                           // SET: victim gone from the table, not from the deadlines
    | Reading(key: Bytes, checkedAt: nat, pending: bool)    // GET: found unexpired; `pending` if the sweeper held it
    | Lapsing(key: Bytes)                                   // GET: found expired, and its deadline erased
    | Deleting(key: Bytes)                                  // DEL: gone from the table, not from the deadlines

  /** The first six fields are the program's state; the rest record its history. */
  datatype World = World(
    cache: Cache,
    phase: Phase,
    batch: seq<Bytes>,                     // collected by the sweeper, not yet called back
    now: nat,
    due: map<Bytes, Option<nat>>,          // the deadline that each key's last SET gave it
    overlapped: set<Bytes>,                // keys of the batch whose SET overlaps their wait in it
    inserted: nat,
    deleted: nat,
    phantoms: nat,                         // expirations counted for keys that were not in the table
    gets: nat)

  function Start(buckets: nat): World {
    World(EMPTY.(buckets := buckets), Idle, [], 0, map[], {}, 0, 0, 0, 0)
  }

  datatype Step =
    | Tick(elapsed: nat)
    | BeginSet(put: Put) | WriteDeadline | EvictVictim | EraseVictim | EndSet
    | BeginGet(key: Bytes) | Read | Lapse
    | BeginDel(key: Bytes) | EndDel
    | Collect(keys: seq<Bytes>)
    | Callback

  predicate OverBudget(c: Cache, limits: Limits) { c.order != [] && Used(c) > limits.memory }

  ghost predicate Enabled(limits: Limits, w: World, s: Step) {
    match s
    case Tick(_) => true
    case BeginSet(p) => w.phase == Idle && p.Valid(w.cache.buckets) && CanStore(limits, p.key, p.value, p.capacity)
    case WriteDeadline => w.phase.Scheduling?
    case EvictVictim => w.phase == Evicting && OverBudget(w.cache, limits)
    case EraseVictim => w.phase.Unscheduling?
    case EndSet => w.phase == Evicting && !OverBudget(w.cache, limits)
    case BeginGet(_) => w.phase == Idle
    case Read => w.phase.Reading?
    case Lapse => w.phase.Lapsing?
    case BeginDel(key) => w.phase == Idle && key in w.cache.data
    case EndDel => w.phase.Deleting?
    case Collect(keys) =>
      w.batch == [] && Distinct(keys) && (set k | k in keys) == ExpiredKeys(w.cache.expiries, w.now)
    case Callback => w.phase == Idle && w.batch != []
  }

  /** The deadline a SET gives its key. */
  function DueOf(ttl: int, now: nat): Option<nat> { if ttl <= 0 then None else Some(now + ttl * SECOND) }

  // What each step does. SET: the value, then the deadline, then evictions until the budget is met.

  function BeginSetStep(w: World, p: Put): World {
    w.(cache := Store(w.cache, p), phase := Scheduling(p),
       inserted := if p.key in w.cache.data then w.inserted else w.inserted + 1,
       overlapped := if p.key in w.batch then w.overlapped + {p.key} else w.overlapped)
  }

  function WriteDeadlineStep(w: World, p: Put): World {
    w.(cache := NotePeak(Schedule(w.cache, p.key, p.ttl, w.now)), phase := Evicting,
       due := w.due[p.key := DueOf(p.ttl, w.now)])
  }

  function EvictStep(w: World): World
    requires w.cache.order != []
  {
    w.(cache := EvictData(w.cache), phase := Unscheduling(Victim(w.cache)))
  }

  // GET: the deadline is checked, and erased if passed, before the table is looked at.

  function BeginGetStep(w: World, key: Bytes): World {
    if Expired(w.cache.expiries, key, w.now)
    then w.(cache := Unschedule(w.cache, key), phase := Lapsing(key))
    else w.(phase := Reading(key, w.now, key in w.batch && key !in w.overlapped))
  }

  function ReadStep(w: World, key: Bytes): World {
    var c := w.cache;
    w.(phase := Idle, gets := w.gets + 1,
       cache := if key in c.data then c.(order := Lru.Touch(c.order, key), hits := c.hits + 1)
                else c.(misses := c.misses + 1))
  }

  function LapseStep(w: World, key: Bytes): World {
    var c := w.cache;
    w.(phase := Idle, gets := w.gets + 1,
       cache := (if key in c.data then Forget(c, key) else c).(expired := c.expired + 1, misses := c.misses + 1),
       phantoms := if key in c.data then w.phantoms else w.phantoms + 1)
  }

  function BeginDelStep(w: World, key: Bytes): World {
    w.(cache := Forget(w.cache, key), phase := Deleting(key), deleted := w.deleted + 1)
  }

  /** The last deadline access of an operation, or of an eviction. */
  function EraseStep(w: World, key: Bytes, phase: Phase): World {
    w.(cache := Unschedule(w.cache, key), phase := phase)
  }

  // The sweeper.

  function CollectStep(w: World, keys: seq<Bytes>): World {
    w.(cache := AfterCollect(w.cache, w.now), batch := keys,
       overlapped := if w.phase.Scheduling? && w.phase.put.key in keys then {w.phase.put.key} else {})
  }

  function CallbackStep(w: World): World
    requires w.batch != []
  {
    w.(cache := ExpireKey(w.cache, w.batch[0]), batch := w.batch[1..])
  }

  function Next(limits: Limits, w: World, s: Step): World
    requires Enabled(limits, w, s)
  {
    match s
    case Tick(elapsed) => w.(now := w.now + elapsed)
    case BeginSet(p) => BeginSetStep(w, p)
    case WriteDeadline => WriteDeadlineStep(w, w.phase.put)
    case EvictVictim => EvictStep(w)
    case EraseVictim => EraseStep(w, w.phase.victim, Evicting)
    case EndSet => w.(phase := Idle)
    case BeginGet(key) => BeginGetStep(w, key)
    case Read => ReadStep(w, w.phase.key)
    case Lapse => LapseStep(w, w.phase.key)
    case BeginDel(key) => BeginDelStep(w, key)
    case EndDel => EraseStep(w, w.phase.key, Idle)
    case Collect(keys) => CollectStep(w, keys)
    case Callback => CallbackStep(w)
  }

  /** The world after `steps`, or nothing if some step was not enabled. */
  ghost function Execute(limits: Limits, w: World, steps: seq<Step>): Option<World>
    decreases |steps|
  {
    if steps == [] then Some(w)
    else if !Enabled(limits, w, steps[0]) then None
    else Execute(limits, Next(limits, w, steps[0]), steps[1..])
  }

  // ---------------------------------------------------------------- the invariant

  /** Whether the operation in progress is between two accesses to `key`'s deadline. */
  predicate Busy(phase: Phase, key: Bytes) {
    (phase.Scheduling? && phase.put.key == key) || (phase.Lapsing? && phase.key == key)
  }

  /**
   The deadline table holds what the last SET of `key` said, except while the sweeper holds the key: then the
   deadline has passed, unless a SET overlaps the wait.
   */
  ghost predicate KeyOk(w: World, key: Bytes) {
    && key in w.due
    && if key in w.batch && key !in w.overlapped
       then key !in w.cache.expiries && w.due[key].Some? && w.due[key].value <= w.now
       else if w.due[key].Some? then key in w.cache.expiries && w.cache.expiries[key] == w.due[key].value
       else key !in w.cache.expiries
  }

  ghost predicate KeysOk(w: World) {
    forall k :: k in w.cache.data && !Busy(w.phase, k) ==> KeyOk(w, k)
  }

  ghost predicate PhaseOk(w: World) {
    match w.phase
    case Scheduling(p) => p.key in w.cache.data && (p.key in w.batch ==> p.key in w.overlapped)
    case Reading(key, at, pending) =>
      && at <= w.now
      && (key in w.cache.data ==> key in w.due && (pending <==> w.due[key].Some? && w.due[key].value <= at))
    case Lapsing(key) => key in w.cache.data ==> key in w.due && w.due[key].Some? && w.due[key].value <= w.now
    case Unscheduling(victim) => victim !in w.cache.data
    case Deleting(key) => key !in w.cache.data
    case _ => true
  }

  /** Every inserted key is in the table or was counted out of it. */
  ghost predicate Balanced(w: World) {
    && w.inserted + w.phantoms == |w.cache.data| + w.deleted + w.cache.evictions + w.cache.expired
    && w.cache.hits + w.cache.misses == w.gets
  }

  ghost predicate Inv(w: World) {
    Consistent(w.cache) && KeysOk(w) && PhaseOk(w) && Balanced(w)
  }

  // ---------------------------------------------------------------- every step keeps it

  lemma StoreCounts(c: Cache, p: Put)
    ensures |Store(c, p).data| == |c.data| + if p.key in c.data then 0 else 1
    ensures forall k :: k in Store(c, p).data <==> k == p.key || k in c.data
  {
    if p.key in c.data { assert c.data[p.key := Meta(p.value, p.Accounted())].Keys == c.data.Keys; }
  }

  lemma UnstoreCounts(c: Cache, key: Bytes)
    ensures |Unstore(c, key).data| == |c.data| - if key in c.data then 1 else 0
    ensures forall k :: k in Unstore(c, key).data <==> k in c.data && k != key
  {
    if key in c.data { assert (c.data - {key}).Keys == c.data.Keys - {key}; }
  }

  /** A step that writes no deadline of a stored key keeps every key's state. */
  lemma SameDeadlines(w: World, w': World)
    requires KeysOk(w) && w'.batch == w.batch && w'.overlapped == w.overlapped && w'.due == w.due && w.now <= w'.now
    requires forall k :: k in w'.cache.data && !Busy(w'.phase, k) ==>
               && k in w.cache.data && !Busy(w.phase, k)
               && (k in w'.cache.expiries <==> k in w.cache.expiries)
               && (k in w.cache.expiries ==> w'.cache.expiries[k] == w.cache.expiries[k])
    ensures KeysOk(w')
  {
    forall k | k in w'.cache.data && !Busy(w'.phase, k) ensures KeyOk(w', k) { assert KeyOk(w, k); }
  }

  lemma ExpiriesConsistent(c: Cache, c': Cache)
    requires Consistent(c) && c'.data == c.data && c'.order == c.order && c'.valueBytes == c.valueBytes
    ensures Consistent(c')
  {
  }

  lemma BeginSetKeeps(w: World, p: Put)
    requires Inv(w) && w.phase == Idle
    ensures Inv(BeginSetStep(w, p))
  {
    hide Consistent, Store;
    StoreConsistent(w.cache, p);
    StoreCounts(w.cache, p);
    StoreElse(w.cache, p);
    var w' := BeginSetStep(w, p);
    forall k | k in w'.cache.data && !Busy(w'.phase, k) ensures KeyOk(w', k) { assert KeyOk(w, k); }
  }

  lemma StoreElse(c: Cache, p: Put)
    ensures var c' := Store(c, p);
            && c'.expiries == c.expiries && c'.evictions == c.evictions && c'.expired == c.expired
            && c'.hits == c.hits && c'.misses == c.misses
  {
  }

  lemma WriteDeadlineKeeps(w: World, p: Put)
    requires Inv(w) && w.phase == Scheduling(p)
    ensures Inv(WriteDeadlineStep(w, p))
  {
    hide Consistent;
    ScheduleConsistent(w.cache, p.key, p.ttl, w.now);
    var w' := WriteDeadlineStep(w, p);
    forall k | k in w'.cache.data && !Busy(w'.phase, k) ensures KeyOk(w', k) {
      if k != p.key { assert KeyOk(w, k); }
    }
  }

  lemma EvictKeeps(w: World)
    requires Inv(w) && w.phase == Evicting && w.cache.order != []
    ensures Inv(EvictStep(w))
  {
    hide Consistent, Unstore, KeysOk, Lru.Evict;
    EvictConsistent(w.cache);
    UnstoreCounts(w.cache, Victim(w.cache));
    UnstoreElse(w.cache, Victim(w.cache));
    SameDeadlines(w, EvictStep(w));
  }

  lemma UnstoreElse(c: Cache, key: Bytes)
    ensures var c' := Unstore(c, key);
            && c'.expiries == c.expiries && c'.evictions == c.evictions && c'.expired == c.expired
            && c'.hits == c.hits && c'.misses == c.misses
  {
  }

  lemma LapseKeeps(w: World, key: Bytes)
    requires Inv(w) && w.phase == Lapsing(key)
    ensures Inv(LapseStep(w, key))
  {
    hide Consistent, Unstore, KeysOk, Lru.Remove;
    ForgetConsistent(w.cache, key);
    UnstoreCounts(w.cache, key);
    UnstoreElse(w.cache, key);
    SameDeadlines(w, LapseStep(w, key));
    ExpiriesConsistent(if key in w.cache.data then Forget(w.cache, key) else w.cache, LapseStep(w, key).cache);
  }

  lemma BeginDelKeeps(w: World, key: Bytes)
    requires Inv(w) && w.phase == Idle && key in w.cache.data
    ensures Inv(BeginDelStep(w, key))
  {
    hide Consistent, Unstore, KeysOk, Lru.Remove;
    ForgetConsistent(w.cache, key);
    UnstoreCounts(w.cache, key);
    UnstoreElse(w.cache, key);
    SameDeadlines(w, BeginDelStep(w, key));
  }

  lemma EraseKeeps(w: World, key: Bytes, phase: Phase)
    requires Inv(w) && key !in w.cache.data && (phase == Idle || phase == Evicting)
    requires !w.phase.Scheduling? && !w.phase.Lapsing?
    ensures Inv(EraseStep(w, key, phase))
  {
    hide Consistent, KeysOk;
    SameDeadlines(w, EraseStep(w, key, phase));
    ExpiriesConsistent(w.cache, EraseStep(w, key, phase).cache);
  }

  lemma BeginGetKeeps(w: World, key: Bytes)
    requires Inv(w) && w.phase == Idle
    ensures Inv(BeginGetStep(w, key))
  {
    hide Consistent, KeysOk, KeyOk, PhaseOk;
    BeginGetPhase(w, key);
    assert forall k :: k in w.cache.expiries - {key} <==> k in w.cache.expiries && k != key;
    SameDeadlines(w, BeginGetStep(w, key));
    ExpiriesConsistent(w.cache, BeginGetStep(w, key).cache);
  }

  /** What the deadline check tells the rest of a GET. */
  lemma BeginGetPhase(w: World, key: Bytes)
    requires KeysOk(w) && w.phase == Idle
    ensures PhaseOk(BeginGetStep(w, key))
  {
    if key in w.cache.data { assert KeyOk(w, key); }
  }

  lemma ReadKeeps(w: World, key: Bytes)
    requires Inv(w) && w.phase.Reading? && w.phase.key == key
    ensures Inv(ReadStep(w, key))
  {
    hide Consistent, KeysOk, Lru.Touch;
    TouchConsistent(w.cache, key);
    var c := if key in w.cache.data then w.cache.(order := Lru.Touch(w.cache.order, key)) else w.cache;
    ExpiriesConsistent(c, ReadStep(w, key).cache);
    SameDeadlines(w, ReadStep(w, key));
  }

  lemma CollectKeeps(w: World, keys: seq<Bytes>)
    requires Inv(w) && w.batch == [] && (set k | k in keys) == ExpiredKeys(w.cache.expiries, w.now)
    ensures Inv(CollectStep(w, keys))
  {
    hide Consistent, ExpiredKeys, KeysOk, PhaseOk;
    ExpiriesConsistent(w.cache, CollectStep(w, keys).cache);
    CollectKeys(w, keys);
    CollectPhase(w, keys);
  }

  lemma CollectKeys(w: World, keys: seq<Bytes>)
    requires KeysOk(w) && w.batch == [] && (set k | k in keys) == ExpiredKeys(w.cache.expiries, w.now)
    ensures KeysOk(CollectStep(w, keys))
  {
    hide ExpiredKeys, KeyOk;
    var w' := CollectStep(w, keys);
    forall k | k in w'.cache.data && !Busy(w'.phase, k) ensures KeyOk(w', k) { CollectKey(w, keys, k); }
  }

  lemma CollectPhase(w: World, keys: seq<Bytes>)
    requires PhaseOk(w) && w.batch == []
    ensures PhaseOk(CollectStep(w, keys))
  {
    hide ExpiredKeys;
  }

  lemma CollectKey(w: World, keys: seq<Bytes>, k: Bytes)
    requires w.batch == [] && (set k | k in keys) == ExpiredKeys(w.cache.expiries, w.now)
    requires KeyOk(w, k) && !Busy(w.phase, k)
    ensures KeyOk(CollectStep(w, keys), k)
  {
    hide ExpiredKeys;
    KeysAreExpired(w.cache.expiries, w.now, keys, k);
    Collected(w.cache.expiries, w.now, k);
  }

  lemma KeysAreExpired(expiries: Expiries, now: nat, keys: seq<Bytes>, k: Bytes)
    requires (set k | k in keys) == ExpiredKeys(expiries, now)
    ensures k in keys <==> Expired(expiries, k, now)
  {
    assert k in keys <==> k in set x | x in keys;
    assert k in ExpiredKeys(expiries, now) <==> Expired(expiries, k, now);
  }

  lemma Collected(expiries: Expiries, now: nat, k: Bytes)
    ensures var rest := expiries - ExpiredKeys(expiries, now);
            && (k in rest <==> k in expiries && !Expired(expiries, k, now))
            && (k in rest ==> rest[k] == expiries[k])
  {
  }

  lemma CallbackKeeps(w: World)
    requires Inv(w) && w.phase == Idle && w.batch != []
    ensures Inv(CallbackStep(w))
  {
    hide Consistent, Unstore, Lru.Remove;
    var key, w' := w.batch[0], CallbackStep(w);
    ForgetConsistent(w.cache, key);
    UnstoreCounts(w.cache, key);
    UnstoreElse(w.cache, key);
    ExpiriesConsistent(if key in w.cache.data then Forget(w.cache, key) else w.cache, w'.cache);
    assert forall k :: k != key ==> (k in w'.batch <==> k in w.batch);
    forall k | k in w'.cache.data && !Busy(w'.phase, k) ensures KeyOk(w', k) { assert KeyOk(w, k); }
  }

  lemma TickKeeps(w: World, w': World)
    requires Inv(w) && w.now <= w'.now && w' == w.(now := w'.now)
    ensures Inv(w')
  {
    hide Consistent, KeysOk;
    SameDeadlines(w, w');
  }

  lemma StepKeeps(limits: Limits, w: World, s: Step)
    requires Inv(w) && Enabled(limits, w, s)
    ensures Inv(Next(limits, w, s))
  {
    match s
    case Tick(_) => TickKeeps(w, Next(limits, w, s));
    case BeginSet(p) => BeginSetKeeps(w, p);
    case WriteDeadline => WriteDeadlineKeeps(w, w.phase.put);
    case EvictVictim => EvictKeeps(w);
    case EraseVictim => EraseKeeps(w, w.phase.victim, Evicting);
    case EndSet => EndSetKeeps(w);
    case BeginGet(key) => BeginGetKeeps(w, key);
    case Read => ReadKeeps(w, w.phase.key);
    case Lapse => LapseKeeps(w, w.phase.key);
    case BeginDel(key) => BeginDelKeeps(w, key);
    case EndDel => EraseKeeps(w, w.phase.key, Idle);
    case Collect(keys) => CollectKeeps(w, keys);
    case Callback => CallbackKeeps(w);
  }

  lemma EndSetKeeps(w: World)
    requires Inv(w) && w.phase == Evicting
    ensures Inv(w.(phase := Idle))
  {
    hide Consistent, KeysOk;
    SameDeadlines(w, w.(phase := Idle));
  }

  lemma {:induction false} RunKeeps(limits: Limits, w: World, steps: seq<Step>)
    requires Inv(w) && Execute(limits, w, steps).Some?
    ensures Inv(Execute(limits, w, steps).value)
    decreases |steps|
  {
    if steps != [] {
      hide Inv, Next, Enabled;
      StepKeeps(limits, w, steps[0]);
      RunKeeps(limits, Next(limits, w, steps[0]), steps[1..]);
    }
  }

  /** Whether some interleaving of steps leads from an empty cache to `w`. */
  ghost predicate Reachable(limits: Limits, w: World) {
    exists buckets: nat, steps: seq<Step> :: Execute(limits, Start(buckets), steps) == Some(w)
  }

  lemma StartInv(buckets: nat)
    ensures Inv(Start(buckets))
  {
  }

  lemma ReachableInv(limits: Limits, w: World)
    requires Reachable(limits, w)
    ensures Inv(w)
  {
    hide Execute, Inv, Start;
    forall buckets: nat ensures Inv(Start(buckets)) { StartInv(buckets); }
    var buckets: nat, steps: seq<Step> :| Execute(limits, Start(buckets), steps) == Some(w);
    RunKeeps(limits, Start(buckets), steps);
  }

  lemma {:induction false} ExecuteSnoc(limits: Limits, w: World, steps: seq<Step>, s: Step)
    requires Execute(limits, w, steps).Some? && Enabled(limits, Execute(limits, w, steps).value, s)
    ensures Execute(limits, w, steps + [s]) == Some(Next(limits, Execute(limits, w, steps).value, s))
    decreases |steps|
  {
    hide Enabled, Next;
    if steps == [] {
      assert [] + [s] == [s] && [s][1..] == [];
      var w' := Next(limits, w, s);
      assert Execute(limits, w', []) == Some(w');
    } else {
      assert (steps + [s])[0] == steps[0] && (steps + [s])[1..] == steps[1..] + [s];
      ExecuteSnoc(limits, Next(limits, w, steps[0]), steps[1..], s);
    }
  }

  // ---------------------------------------------------------------- what the protocol guarantees

  /**
   Over every interleaving, a stored key that the sweeper does not hold, and whose SET is not under way, has in the
   deadline table exactly what its last SET said.
   */
  lemma DeadlineOfLastSet(limits: Limits, w: World, key: Bytes)
    requires Reachable(limits, w) && key in w.cache.data && key !in w.batch && !Busy(w.phase, key)
    ensures key in w.due
    ensures w.due[key] == if key in w.cache.expiries then Some(w.cache.expiries[key]) else None
  {
    ReachableInv(limits, w);
    assert KeyOk(w, key);
  }

  /** A GET about to return a value checked it after its deadline exactly when the sweeper then held the key. */
  lemma HitIsTimely(limits: Limits, w: World)
    requires Reachable(limits, w) && w.phase.Reading? && w.phase.key in w.cache.data
    ensures w.phase.key in w.due
    ensures w.phase.pending <==> w.due[w.phase.key].Some? && w.due[w.phase.key].value <= w.phase.checkedAt
  {
    ReachableInv(limits, w);
  }

  /** A GET that drops a value drops it after its deadline. */
  lemma LapseIsTimely(limits: Limits, w: World)
    requires Reachable(limits, w) && w.phase.Lapsing? && w.phase.key in w.cache.data
    ensures w.phase.key in w.due && w.due[w.phase.key].Some? && w.due[w.phase.key].value <= w.now
  {
    ReachableInv(limits, w);
  }

  /**
   The sweeper's next callback removes a value whose deadline has passed exactly when no SET of the key overlapped its
   wait in the batch, or one did and its own deadline has passed again meanwhile.
   */
  lemma SweepIsTimely(limits: Limits, w: World)
    requires Reachable(limits, w) && Enabled(limits, w, Callback) && w.batch[0] in w.cache.data
    ensures var k := w.batch[0];
            && k in w.due
            && (w.due[k].Some? && w.due[k].value <= w.now <==>
                k !in w.overlapped || Expired(w.cache.expiries, k, w.now))
  {
    ReachableInv(limits, w);
    assert KeyOk(w, w.batch[0]);
  }

  /** Insertions are never lost: each is in the table, or counted as deleted, evicted or expired. */
  lemma Conservation(limits: Limits, w: World)
    requires Reachable(limits, w)
    ensures w.inserted + w.phantoms == |w.cache.data| + w.deleted + w.cache.evictions + w.cache.expired
    ensures Overcounted(w) <==> w.phantoms > 0
    ensures w.cache.hits + w.cache.misses == w.gets
  {
    ReachableInv(limits, w);
  }

  // ---------------------------------------------------------------- operations left alone

  /** The clock, the sweeper and the beginnings of operations stand still. */
  predicate Quiet(steps: seq<Step>) {
    forall s :: s in steps ==>
      !s.Tick? && !s.Collect? && !s.Callback? && !s.BeginSet? && !s.BeginGet? && !s.BeginDel?
  }

  /** One operation begins, and nothing interrupts it. */
  predicate Alone(begin: Step, steps: seq<Step>) { steps != [] && steps[0] == begin && Quiet(steps[1..]) }

  lemma {:induction false} ExecuteTwo(limits: Limits, w: World, a: Step, b: Step, rest: seq<Step>)
    requires Enabled(limits, w, a) && Enabled(limits, Next(limits, w, a), b)
    ensures Execute(limits, w, [a, b] + rest) == Execute(limits, Next(limits, Next(limits, w, a), b), rest)
  {
    hide Next, Enabled;
    var steps := [a, b] + rest;
    assert steps[0] == a && steps[1..][0] == b && steps[1..][1..] == rest;
  }

  lemma {:induction false} EvictionsAlone(limits: Limits, w: World) returns (steps: seq<Step>)
    requires w.phase == Evicting
    ensures Execute(limits, w, steps) == Some(w.(cache := EvictLoop(w.cache, limits.memory), phase := Idle))
    ensures Quiet(steps)
    decreases |w.cache.order|
  {
    if OverBudget(w.cache, limits) {
      var w' := w.(cache := EvictOne(w.cache));
      steps := EvictionsAlone(limits, w');
      ExecuteTwo(limits, w, EvictVictim, EraseVictim, steps);
      steps := [EvictVictim, EraseVictim] + steps;
    } else {
      var w' := w.(phase := Idle);
      steps := [EndSet];
      assert Execute(limits, w', []) == Some(w');
      assert steps[1..] == [];
    }
  }

  /** A SET that nothing interrupts does what `Storage.Set` does in one piece. */
  lemma SetAlone(limits: Limits, w: World, p: Put) returns (steps: seq<Step>)
    requires Enabled(limits, w, BeginSet(p))
    ensures Alone(BeginSet(p), steps) && Execute(limits, w, steps).Some?
    ensures var w' := Execute(limits, w, steps).value;
            w'.phase == Idle && w'.cache == Set(w.cache, limits, p, w.now) && w'.batch == w.batch
  {
    hide EvictLoop, Store;
    var w2 := WriteDeadlineStep(BeginSetStep(w, p), p);
    steps := EvictionsAlone(limits, w2);
    ExecuteTwo(limits, w, BeginSet(p), WriteDeadline, steps);
    steps := [BeginSet(p), WriteDeadline] + steps;
  }

  /** Likewise a GET. */
  lemma GetAlone(limits: Limits, w: World, key: Bytes) returns (steps: seq<Step>)
    requires w.phase == Idle
    ensures Alone(BeginGet(key), steps) && Execute(limits, w, steps).Some?
    ensures var w' := Execute(limits, w, steps).value;
            w'.phase == Idle && w'.cache == Get(w.cache, key, w.now).0 && w'.batch == w.batch
  {
    hide Lru.Touch, Forget;
    var second := if Expired(w.cache.expiries, key, w.now) then Lapse else Read;
    ExecuteTwo(limits, w, BeginGet(key), second, []);
    steps := [BeginGet(key), second];
    assert [BeginGet(key), second] + [] == steps;
  }

  /** Likewise a DEL of a stored key. */
  lemma DelAlone(limits: Limits, w: World, key: Bytes) returns (steps: seq<Step>)
    requires w.phase == Idle && key in w.cache.data
    ensures Alone(BeginDel(key), steps) && Execute(limits, w, steps).Some?
    ensures var w' := Execute(limits, w, steps).value;
            w'.phase == Idle && w'.cache == Del(w.cache, key).0 && w'.batch == w.batch
  {
    hide Forget;
    ExecuteTwo(limits, w, BeginDel(key), EndDel, []);
    steps := [BeginDel(key), EndDel];
    assert [BeginDel(key), EndDel] + [] == steps;
  }

  // ---------------------------------------------------------------- atomic sweeps

  /** A sweep from collection to last callback with no client operation in between, nor under way. */
  predicate Atomic(w: World, s: Step) {
    && (s.BeginSet? || s.BeginGet? || s.BeginDel? ==> w.batch == [])
    && (s.Collect? ==> w.phase == Idle)
  }

  ghost function ExecuteAtomic(limits: Limits, w: World, steps: seq<Step>): Option<World>
    decreases |steps|
  {
    if steps == [] then Some(w)
    else if !Enabled(limits, w, steps[0]) || !Atomic(w, steps[0]) then None
    else ExecuteAtomic(limits, Next(limits, w, steps[0]), steps[1..])
  }

  /** With atomic sweeps, only stored keys have deadlines, and only stored keys wait for the sweeper. */
  ghost predicate NoOrphans(w: World) {
    && (forall k :: k in w.cache.expiries ==> k in w.cache.data || w.phase == Unscheduling(k) || w.phase == Deleting(k))
    && (forall k :: k in w.batch ==> k in w.cache.data && k !in w.cache.expiries)
    && Distinct(w.batch) && (w.batch != [] ==> w.phase == Idle)
    && (w.phase.Lapsing? ==> w.phase.key in w.cache.data && w.phase.key !in w.cache.expiries)
    && (w.phase.Scheduling? ==> w.phase.put.key in w.cache.data)
    && w.phantoms == 0
  }

  lemma AtomicSetKeeps(w: World, p: Put)
    requires NoOrphans(w) && w.phase == Idle && w.batch == []
    ensures NoOrphans(BeginSetStep(w, p))
  {
    hide Store;
    StoreCounts(w.cache, p);
    StoreElse(w.cache, p);
  }

  lemma AtomicLapseKeeps(w: World, key: Bytes)
    requires NoOrphans(w) && w.phase == Lapsing(key)
    ensures NoOrphans(LapseStep(w, key))
  {
    hide Unstore, Lru.Remove;
    UnstoreCounts(w.cache, key);
    UnstoreElse(w.cache, key);
  }

  lemma AtomicDelKeeps(w: World, key: Bytes)
    requires NoOrphans(w) && w.phase == Idle && w.batch == []
    ensures NoOrphans(BeginDelStep(w, key))
  {
    hide Unstore, Lru.Remove;
    UnstoreCounts(w.cache, key);
    UnstoreElse(w.cache, key);
  }

  /** The steps of a client's operation that leave the table alone. */
  lemma AtomicDeadlinesKeep(limits: Limits, w: World, s: Step)
    requires NoOrphans(w) && Enabled(limits, w, s) && Atomic(w, s)
    requires s.Tick? || s.WriteDeadline? || s.EraseVictim? || s.EndSet? || s.BeginGet? || s.Read? || s.EndDel?
    ensures NoOrphans(Next(limits, w, s))
  {
    hide Lru.Touch;
  }

  lemma AtomicClientKeeps(limits: Limits, w: World, s: Step)
    requires NoOrphans(w) && Enabled(limits, w, s) && Atomic(w, s)
    requires !s.Collect? && !s.Callback? && !s.EvictVictim?
    ensures NoOrphans(Next(limits, w, s))
  {
    hide NoOrphans, BeginSetStep, LapseStep, BeginDelStep;
    match s
    case BeginSet(p) => AtomicSetKeeps(w, p);
    case Lapse => AtomicLapseKeeps(w, w.phase.key);
    case BeginDel(key) => AtomicDelKeeps(w, key);
    case _ => AtomicDeadlinesKeep(limits, w, s);
  }

  lemma AtomicEvictKeeps(w: World)
    requires NoOrphans(w) && w.phase == Evicting && w.cache.order != []
    ensures NoOrphans(EvictStep(w))
  {
    hide Unstore, Lru.Evict;
    UnstoreCounts(w.cache, Victim(w.cache));
    UnstoreElse(w.cache, Victim(w.cache));
  }

  lemma AtomicCollectKeeps(w: World, keys: seq<Bytes>)
    requires NoOrphans(w) && w.phase == Idle && Distinct(keys)
    requires (set k | k in keys) == ExpiredKeys(w.cache.expiries, w.now)
    ensures NoOrphans(CollectStep(w, keys))
  {
    hide ExpiredKeys;
    forall k ensures k in keys ==> k in w.cache.data && k !in CollectStep(w, keys).cache.expiries {
      KeysAreExpired(w.cache.expiries, w.now, keys, k);
      Collected(w.cache.expiries, w.now, k);
    }
    forall k | k in CollectStep(w, keys).cache.expiries ensures k in w.cache.data {
      Collected(w.cache.expiries, w.now, k);
    }
  }

  lemma AtomicCallbackKeeps(w: World)
    requires NoOrphans(w) && w.phase == Idle && w.batch != []
    ensures NoOrphans(CallbackStep(w))
  {
    hide Unstore, Lru.Remove;
    var key, rest := w.batch[0], w.batch[1..];
    UnstoreCounts(w.cache, key);
    UnstoreElse(w.cache, key);
    assert forall i :: 0 <= i < |rest| ==> rest[i] == w.batch[i + 1];
    assert key in w.batch;
    forall k | k in rest ensures k in w.batch && k != key {
      var i :| 0 <= i < |rest| && rest[i] == k;
    }
  }

  lemma {:induction false} AtomicRunKeeps(limits: Limits, w: World, steps: seq<Step>)
    requires Inv(w) && NoOrphans(w) && ExecuteAtomic(limits, w, steps).Some?
    ensures Inv(ExecuteAtomic(limits, w, steps).value) && NoOrphans(ExecuteAtomic(limits, w, steps).value)
    decreases |steps|
  {
    if steps != [] {
      var s := steps[0];
      StepKeeps(limits, w, s);
      if s.Collect? {
        AtomicCollectKeeps(w, s.keys);
      } else if s.Callback? {
        AtomicCallbackKeeps(w);
      } else if s.EvictVictim? {
        AtomicEvictKeeps(w);
      } else {
        AtomicClientKeeps(limits, w, s);
      }
      hide Inv, NoOrphans, Enabled, Next;
      AtomicRunKeeps(limits, Next(limits, w, s), steps[1..]);
    }
  }

  /** When sweeps are atomic, the insertion count balances exactly. */
  lemma AtomicConservation(limits: Limits, buckets: nat, steps: seq<Step>)
    requires ExecuteAtomic(limits, Start(buckets), steps).Some?
    ensures var w := ExecuteAtomic(limits, Start(buckets), steps).value;
            w.inserted == |w.cache.data| + w.deleted + w.cache.evictions + w.cache.expired
  {
    AtomicRunKeeps(limits, Start(buckets), steps);
  }

  // ---------------------------------------------------------------- the window

  lemma SmallSet(c: Cache, p: Put, limits: Limits)
    requires p.key in c.data ==> c.order == [Lru.Item(p.key, p.Accounted())]
    requires p.key !in c.data ==> c.order == []
    requires |p.key| + p.Accounted() + (if p.key in c.data then c.buckets else p.buckets) * POINTER_SIZE
             <= limits.memory
    ensures Store(c, p).order == [Lru.Item(p.key, p.Accounted())] && !OverBudget(Store(c, p), limits)
  {
    var x := Lru.Item(p.key, p.Accounted());
    if p.key in c.data {
      assert Lru.Keys(c.order)[0] == p.key;
      assert Lru.Find(c.order, p.key) == 0;
      assert Erase(c.order, 0) == [];
    } else {
      assert Erase(c.order, Lru.Find(c.order, p.key)) == [];
    }
    assert [x] + [] == [x];
    Lru.FrontCost(x, []);
  }

  /** No string is allocated less than `least` bytes. */
  predicate Ample(least: nat, steps: seq<Step>) {
    forall s :: s in steps && s.BeginSet? ==> s.put.capacity >= least
  }

  /** Whether some interleaving leads to `w` from an empty table of `buckets`, with no string of less than `least`. */
  ghost predicate Arises(limits: Limits, buckets: nat, least: nat, w: World) {
    exists steps: seq<Step> :: Ample(least, steps) && Execute(limits, Start(buckets), steps) == Some(w)
  }

  lemma ArisesReachable(limits: Limits, buckets: nat, least: nat, w: World)
    requires Arises(limits, buckets, least, w)
    ensures Reachable(limits, w)
  {
    hide Execute, Start, Ample;
  }

  lemma ArisesStart(limits: Limits, buckets: nat, least: nat)
    ensures Arises(limits, buckets, least, Start(buckets))
  {
    assert Ample(least, []) && Execute(limits, Start(buckets), []) == Some(Start(buckets));
  }

  lemma ArisesStep(limits: Limits, buckets: nat, least: nat, w: World, s: Step)
    requires Arises(limits, buckets, least, w) && Enabled(limits, w, s) && (s.BeginSet? ==> s.put.capacity >= least)
    ensures Arises(limits, buckets, least, Next(limits, w, s))
  {
    hide Enabled, Next, Start;
    var steps: seq<Step> :| Ample(least, steps) && Execute(limits, Start(buckets), steps) == Some(w);
    ExecuteSnoc(limits, Start(buckets), steps, s);
    assert Ample(least, steps + [s]);
  }

  /** The memory limit admits the smallest entry there can be, together with the bucket array. */
  predicate Roomy(limits: Limits, buckets: nat, least: nat) {
    least + ENTRY_OVERHEAD + buckets * POINTER_SIZE <= limits.memory
  }

  const KEY: Bytes := []

  /** A run in which the sweeper has just collected a stored key. */
  lemma CollectedRun(limits: Limits, buckets: nat, least: nat) returns (w: World)
    requires Roomy(limits, buckets, least)
    ensures Arises(limits, buckets, least, w) && w.phase == Idle && w.batch == [KEY] && w.overlapped == {}
    ensures var size := least + ENTRY_OVERHEAD;
            w.cache.data == map[KEY := Meta([], size)] && w.cache.order == [Lru.Item(KEY, size)]
    ensures w.cache.buckets == buckets && w.cache.expiries == map[] && w.now == 2 * SECOND
  {
    hide Arises, Inv;
    var p := Put(KEY, [], least, 1, buckets);
    ArisesStart(limits, buckets, least);
    var w1 := RunSmallSet(limits, buckets, least, Start(buckets), p);
    ArisesStep(limits, buckets, least, w1, Tick(2 * SECOND));
    var w2 := Next(limits, w1, Tick(2 * SECOND));
    assert ExpiredKeys(w2.cache.expiries, w2.now) == {KEY} == set k | k in [KEY];
    ArisesStep(limits, buckets, least, w2, Collect([KEY]));
    w := CollectStep(w2, [KEY]);
  }

  // Without that room nothing outlives the SET that stores it.

  predicate Bare(c: Cache) { c.data == map[] && c.order == [] }

  /** One entry, of at least the least size, and at most its deadline. */
  predicate Single(c: Cache, least: nat) {
    && |c.order| == 1 && c.order[0].size >= least + ENTRY_OVERHEAD
    && c.data.Keys == {c.order[0].key} && c.expiries.Keys <= {c.order[0].key}
  }

  ghost predicate Fleeting(w: World, buckets: nat, least: nat) {
    && w.cache.buckets >= buckets && w.phantoms == 0
    && match w.phase
       case Idle => Bare(w.cache) && w.cache.expiries == map[]
       case Reading(_, _, _) => Bare(w.cache) && w.cache.expiries == map[]
       case Scheduling(p) => Single(w.cache, least) && w.cache.order[0].key == p.key
       case Evicting => Single(w.cache, least) || (Bare(w.cache) && w.cache.expiries == map[])
       case Unscheduling(k) => Bare(w.cache) && w.cache.expiries.Keys <= {k}
       case _ => false
  }

  lemma SetFleets(w: World, buckets: nat, least: nat, p: Put)
    requires Fleeting(w, buckets, least) && w.phase == Idle && p.Valid(w.cache.buckets) && p.capacity >= least
    ensures Fleeting(BeginSetStep(w, p), buckets, least)
  {
    assert Erase(w.cache.order, Lru.Find(w.cache.order, p.key)) == [];
    assert Lru.Add(w.cache.order, p.key, p.Accounted()) == [Lru.Item(p.key, p.Accounted())];
  }

  lemma SingleIsOver(limits: Limits, c: Cache, buckets: nat, least: nat)
    requires Single(c, least) && c.buckets >= buckets && !Roomy(limits, buckets, least)
    ensures OverBudget(c, limits)
  {
    assert c.order == [c.order[0]] + [];
    Lru.FrontCost(c.order[0], []);
  }

  lemma FleetingStep(limits: Limits, w: World, s: Step, buckets: nat, least: nat)
    requires Fleeting(w, buckets, least) && Enabled(limits, w, s) && !Roomy(limits, buckets, least)
    requires s.BeginSet? ==> s.put.capacity >= least
    ensures Fleeting(Next(limits, w, s), buckets, least)
  {
    hide Lru.Touch, Roomy, Lru.Add;
    match s
    case BeginSet(p) => SetFleets(w, buckets, least, p);
    case EvictVictim => assert (w.cache.data - {Victim(w.cache)}).Keys == {};
    case EndSet => if Single(w.cache, least) { SingleIsOver(limits, w.cache, buckets, least); }
    case _ =>
  }

  lemma {:induction false} FleetingRun(limits: Limits, w: World, steps: seq<Step>, buckets: nat, least: nat)
    requires Fleeting(w, buckets, least) && !Roomy(limits, buckets, least)
    requires Ample(least, steps) && Execute(limits, w, steps).Some?
    ensures Fleeting(Execute(limits, w, steps).value, buckets, least)
    decreases |steps|
  {
    if steps != [] {
      hide Fleeting, Enabled, Next, Roomy;
      FleetingStep(limits, w, steps[0], buckets, least);
      FleetingRun(limits, Next(limits, w, steps[0]), steps[1..], buckets, least);
    }
  }

  lemma ArisesFleeting(limits: Limits, buckets: nat, least: nat, w: World)
    requires Arises(limits, buckets, least, w) && !Roomy(limits, buckets, least)
    ensures Fleeting(w, buckets, least)
  {
    hide Execute, Ample, Roomy;
    var steps: seq<Step> :| Ample(least, steps) && Execute(limits, Start(buckets), steps) == Some(w);
    FleetingRun(limits, Start(buckets), steps, buckets, least);
  }

  /**
   The window: a key stored again after the sweeper collected it is removed by the callback, though its new value
   never expires. It is there exactly when an entry can stay at all.
   */
  lemma FreshValueCanBeSwept(limits: Limits, buckets: nat, least: nat)
    ensures (exists w: World :: Arises(limits, buckets, least, w) && FreshValueAtStake(limits, w)) <==>
            Roomy(limits, buckets, least)
  {
    hide Arises, Inv;
    if Roomy(limits, buckets, least) {
      var w := CollectedRun(limits, buckets, least);
      var w' := RunSmallSet(limits, buckets, least, w, Put(KEY, [], least, 0, buckets));
      assert FreshValueAtStake(limits, w');
    } else {
      forall w | Arises(limits, buckets, least, w) ensures !FreshValueAtStake(limits, w) {
        ArisesFleeting(limits, buckets, least, w);
      }
    }
  }

  /** In the same window a GET finds, past its deadline, a value that it then returns. */
  lemma LateHitHappens(limits: Limits, buckets: nat, least: nat)
    ensures (exists w: World :: Arises(limits, buckets, least, w) && LateHit(w)) <==> Roomy(limits, buckets, least)
  {
    hide Arises, Inv;
    if Roomy(limits, buckets, least) {
      var w := CollectedRun(limits, buckets, least);
      ArisesStep(limits, buckets, least, w, BeginGet(KEY));
      var w' := BeginGetStep(w, KEY);
      ArisesReachable(limits, buckets, least, w');
      HitIsTimely(limits, w');
      assert LateHit(w');
    } else {
      forall w | Arises(limits, buckets, least, w) ensures !LateHit(w) {
        ArisesFleeting(limits, buckets, least, w);
      }
    }
  }

  /** Plain conservation fails in the window: an expiration is counted for a key that is no longer there. */
  lemma PhantomExpiration(limits: Limits, buckets: nat, least: nat)
    ensures (exists w: World :: Arises(limits, buckets, least, w) && Overcounted(w)) <==>
            Roomy(limits, buckets, least)
  {
    hide Arises, Inv;
    if Roomy(limits, buckets, least) {
      var w := PhantomRun(limits, buckets, least);
    } else {
      forall w | Arises(limits, buckets, least, w) ensures !Overcounted(w) {
        ArisesFleeting(limits, buckets, least, w);
        ArisesReachable(limits, buckets, least, w);
        Conservation(limits, w);
      }
    }
  }

  lemma PhantomRun(limits: Limits, buckets: nat, least: nat) returns (w: World)
    requires Roomy(limits, buckets, least)
    ensures Arises(limits, buckets, least, w) && Overcounted(w)
  {
    hide Arises, Inv;
    var w0 := CollectedRun(limits, buckets, least);
    var w1 := RunSmallSet(limits, buckets, least, w0, Put(KEY, [], least, 1, buckets));
    ArisesStep(limits, buckets, least, w1, Callback);
    var w2 := CallbackStep(w1);
    assert KEY !in w2.cache.data && Expired(w2.cache.expiries, KEY, w2.now + 2 * SECOND);
    ArisesStep(limits, buckets, least, w2, Tick(2 * SECOND));
    var w3 := w2.(now := w2.now + 2 * SECOND);
    ArisesStep(limits, buckets, least, w3, BeginGet(KEY));
    var w4 := BeginGetStep(w3, KEY);
    ArisesStep(limits, buckets, least, w4, Lapse);
    w := LapseStep(w4, KEY);
    ArisesReachable(limits, buckets, least, w);
    Conservation(limits, w);
  }

  /** A whole SET of the only key there is. */
  lemma RunSmallSet(limits: Limits, buckets: nat, least: nat, w: World, p: Put) returns (w': World)
    requires Arises(limits, buckets, least, w) && Enabled(limits, w, BeginSet(p)) && p.capacity >= least
    requires w.cache.data.Keys <= {p.key}
    requires w.cache.order == if p.key in w.cache.data then [Lru.Item(p.key, p.Accounted())] else []
    requires |p.key| + p.Accounted() + (if p.key in w.cache.data then w.cache.buckets else p.buckets) * POINTER_SIZE
             <= limits.memory
    ensures Arises(limits, buckets, least, w') && w'.phase == Idle && w'.batch == w.batch && w'.now == w.now
    ensures w'.cache.data == w.cache.data[p.key := Meta(p.value, p.Accounted())]
    ensures w'.cache.order == [Lru.Item(p.key, p.Accounted())]
    ensures w'.cache.buckets == if p.key in w.cache.data then w.cache.buckets else p.buckets
    ensures w'.cache.expiries == SetDeadline(w.cache.expiries, p.key, p.ttl, w.now)
    ensures w'.due == w.due[p.key := DueOf(p.ttl, w.now)]
  {
    hide Arises;
    SmallSet(w.cache, p, limits);
    ArisesStep(limits, buckets, least, w, BeginSet(p));
    var w1 := BeginSetStep(w, p);
    ArisesStep(limits, buckets, least, w1, WriteDeadline);
    var w2 := WriteDeadlineStep(w1, p);
    ArisesStep(limits, buckets, least, w2, EndSet);
    w' := w2.(phase := Idle);
  }

  /** A GET is about to return a value that it found past its deadline. */
  ghost predicate LateHit(w: World) {
    && w.phase.Reading? && w.phase.key in w.cache.data && w.phase.key in w.due
    && w.due[w.phase.key].Some? && w.due[w.phase.key].value <= w.phase.checkedAt
  }

  /** More departures have been counted than keys were ever inserted. */
  ghost predicate Overcounted(w: World) {
    w.inserted < |w.cache.data| + w.deleted + w.cache.evictions + w.cache.expired
  }

  /** The sweeper is about to remove a value that never expires. */
  ghost predicate FreshValueAtStake(limits: Limits, w: World) {
    && Enabled(limits, w, Callback) && w.batch[0] in w.cache.data
    && w.batch[0] in w.due && w.due[w.batch[0]] == None
    && w.batch[0] !in CallbackStep(w).cache.data
  }
}
