/** The append-only log: what a sequence of records says the cache holds. */
module AofLog {
  import opened ByteStrings
  import opened CacheModel
  import B64 = Base64
  import opened Deadlines
  import Lru = LruOrder

  /** A field of a log line: base64 text, the plain text older logs used, or nothing. */
  datatype Field = Encoded(text: Bytes) | Plain(text: Bytes) | Absent

  /** One line of the log, once parsed; `Unreadable` stands for any line that is skipped. */
  datatype Record = SetRecord(key: Field, value: Field, ttl: int) | DelRecord(key: Field) | Unreadable

  function DecodeField(f: Field): Option<Bytes> {
    match f
    case Encoded(text) => B64.Decode(text)
    case Plain(text) => Some(text)
    case Absent => None
  }

  function SetLine(key: Bytes, value: Bytes, ttl: int): Record {
    SetRecord(Encoded(B64.Encode(key)), Encoded(B64.Encode(value)), ttl)
  }

  function DelLine(key: Bytes): Record { DelRecord(Encoded(B64.Encode(key))) }

  /** What one record does to the values. */
  function ApplyRecord(m: map<Bytes, Bytes>, r: Record): map<Bytes, Bytes> {
    match r
    case SetRecord(key, value, _) =>
      if DecodeField(key).Some? && DecodeField(value).Some?
      then m[DecodeField(key).value := DecodeField(value).value] else m
    case DelRecord(key) => if DecodeField(key).Some? then m - {DecodeField(key).value} else m
    case Unreadable => m
  }

  /** The values a log leaves of those in `base`, its first record first. */
  function Onward(base: map<Bytes, Bytes>, lines: seq<Record>): map<Bytes, Bytes> {
    if lines == [] then base else ApplyRecord(Onward(base, lines[..|lines| - 1]), lines[|lines| - 1])
  }

  /** The field holds `text`, as the log writes it now or as older logs did. */
  predicate Holds(f: Field, text: Bytes) { f == Encoded(B64.Encode(text)) || f == Plain(text) }

  lemma FieldReads(f: Field, text: Bytes)
    requires Holds(f, text)
    ensures DecodeField(f) == Some(text)
  {
    B64.DecodeInvertsEncode(text);
  }

  lemma SetLineReads(key: Bytes, value: Bytes, ttl: int)
    ensures var r := SetLine(key, value, ttl); DecodeField(r.key) == Some(key) && DecodeField(r.value) == Some(value)
  {
    B64.DecodeInvertsEncode(key);
    B64.DecodeInvertsEncode(value);
  }

  /** A logged SET or DEL reads back as itself. */
  lemma LineReadsBack(base: map<Bytes, Bytes>, lines: seq<Record>, key: Bytes, value: Bytes, ttl: int)
    ensures Onward(base, lines + [SetLine(key, value, ttl)]) == Onward(base, lines)[key := value]
    ensures Onward(base, lines + [DelLine(key)]) == Onward(base, lines) - {key}
  {
    SetLineReads(key, value, ttl);
    assert (lines + [SetLine(key, value, ttl)])[..|lines|] == lines;
    assert (lines + [DelLine(key)])[..|lines|] == lines;
  }

  function ValuesOf(data: map<Bytes, Meta>): map<Bytes, Bytes> { map k | k in data :: data[k].value }

  /** Every stored value is the one the log would give its key. */
  ghost predicate Covers(logged: map<Bytes, Bytes>, data: map<Bytes, Meta>) {
    forall k :: k in data ==> k in logged && logged[k] == data[k].value
  }

  /** Whether no value was ever evicted from a cache, or expired in it. */
  predicate Undisturbed(c: Cache) { c.evictions == 0 && c.expired == 0 }

  /** The log covers the cache, and says just what it holds as long as nothing was evicted or expired. */
  ghost predicate Accounted(logged: map<Bytes, Bytes>, c: Cache) {
    Covers(logged, c.data) && (Undisturbed(c) ==> ValuesOf(c.data) == logged)
  }

  // ---------------------------------------------------------------- the operations against the log

  /** What an accepted SET leaves of the values, and that only evictions can take anything away. */
  lemma SetValues(c: Cache, limits: Limits, p: Put, now: nat)
    requires Consistent(c) && CanStore(limits, p.key, p.value, p.capacity)
    ensures var r := Set(c, limits, p, now);
            && (forall k :: k in r.data ==>
                 if k == p.key then r.data[k].value == p.value else k in c.data && r.data[k] == c.data[k])
            && c.evictions <= r.evictions && r.expired == c.expired
            && (r.evictions == c.evictions ==> ValuesOf(r.data) == ValuesOf(c.data)[p.key := p.value])
  {
    hide Consistent, EvictLoop, Lru.Add, SetDeadline, Used;
    var s := NotePeak(Schedule(Store(c, p), p.key, p.ttl, now));
    var r := Set(c, limits, p, now);
    StoreConsistent(c, p);
    ScheduleConsistent(Store(c, p), p.key, p.ttl, now);
    EvictLoopEffect(s, limits.memory);
    SmallerSet(r.data.Keys, s.data.Keys);
    if r.evictions == c.evictions {
      assert r.data.Keys == s.data.Keys;
      assert ValuesOf(r.data) == ValuesOf(c.data)[p.key := p.value];
    }
  }

  lemma {:induction false} SmallerSet<T>(a: set<T>, b: set<T>)
    requires a <= b
    ensures |a| <= |b| && (|a| == |b| ==> a == b)
    decreases |a|
  {
    if a != {} {
      var x :| x in a;
      SmallerSet(a - {x}, b - {x});
      assert a == (a - {x}) + {x} && b == (b - {x}) + {x};
    }
  }

  lemma SetCovered(logged: map<Bytes, Bytes>, c: Cache, limits: Limits, p: Put, now: nat)
    requires Consistent(c) && CanStore(limits, p.key, p.value, p.capacity) && Covers(logged, c.data)
    ensures Covers(logged[p.key := p.value], Set(c, limits, p, now).data)
  {
    hide Set, Consistent;
    SetValues(c, limits, p, now);
  }

  /** A GET of a covered cache finds nothing, or the value last logged for its key. */
  lemma GetIsLogged(logged: map<Bytes, Bytes>, c: Cache, key: Bytes, now: nat)
    requires Covers(logged, c.data)
    ensures var found := Get(c, key, now).1;
            && (found.Some? <==> key in c.data && !Expired(c.expiries, key, now))
            && (found.Some? ==> key in logged && found.value == logged[key])
  {
  }

  /** Dropping keys keeps a cache covered. */
  lemma FewerCovered(logged: map<Bytes, Bytes>, data: map<Bytes, Meta>, data': map<Bytes, Meta>)
    requires Covers(logged, data) && forall k :: k in data' ==> k in data && data'[k] == data[k]
    ensures Covers(logged, data')
  {
  }

  lemma SetAccounted(logged: map<Bytes, Bytes>, c: Cache, limits: Limits, p: Put, now: nat)
    requires Consistent(c) && CanStore(limits, p.key, p.value, p.capacity) && Accounted(logged, c)
    ensures Accounted(logged[p.key := p.value], Set(c, limits, p, now))
  {
    hide Set, Consistent;
    SetCovered(logged, c, limits, p, now);
    SetValues(c, limits, p, now);
  }

  lemma DelAccounted(logged: map<Bytes, Bytes>, c: Cache, key: Bytes)
    requires Accounted(logged, c)
    ensures Accounted(logged - {key}, Del(c, key).0)
  {
    var c' := Del(c, key).0;
    assert c'.data == c.data - {key};
    assert ValuesOf(c.data - {key}) == ValuesOf(c.data) - {key};
  }

  lemma SweepAccounted(logged: map<Bytes, Bytes>, c: Cache, now: nat, key: Bytes)
    requires Accounted(logged, c)
    ensures Accounted(logged, AfterCollect(c, now)) && Accounted(logged, ExpireKey(c, key))
  {
    FewerCovered(logged, c.data, ExpireKey(c, key).data);
  }

  lemma GetAccounted(logged: map<Bytes, Bytes>, c: Cache, key: Bytes, now: nat)
    requires Accounted(logged, c)
    ensures Accounted(logged, Get(c, key, now).0)
    ensures var found := Get(c, key, now).1; found.Some? ==> key in logged && found.value == logged[key]
  {
    GetIsLogged(logged, c, key, now);
    FewerCovered(logged, c.data, Get(c, key, now).0.data);
  }
}

/** Replaying a log into an empty cache while the sweeper runs: what it does, step by step. */
module AofReplay {
  import opened ByteStrings
  import opened Sequences
  import opened Deadlines
  import opened CacheModel
  import opened AofLog

  /** `spare(i)` is the spare capacity of the string that the value of line `i` is decoded into. */
  datatype Replayer = Replayer(limits: Limits, spare: nat -> nat, lines: seq<Record>)

  /** Lines done, the cache, the keys that the sweeper holds, and the clock. */
  datatype Stage = Stage(done: nat, cache: Cache, batch: seq<Bytes>, clock: nat)

  datatype Step = Apply(buckets: nat) | Collect(keys: seq<Bytes>) | CallBack | Tick(elapsed: nat)

  function Beginning(buckets: nat, clock: nat): Stage { Stage(0, EMPTY.(buckets := buckets), [], clock) }

  /** What a line does to the cache; a SET that may not be stored does nothing. */
  function ApplyLine(limits: Limits, spare: nat, c: Cache, r: Record, buckets: nat, now: nat): Cache {
    match r
    case SetRecord(k, v, ttl) =>
      (match (DecodeField(k), DecodeField(v))
       case (Some(key), Some(value)) => Set(c, limits, Put(key, value, |value| + spare, ttl, buckets), now)
       case _ => c)
    case DelRecord(k) => (match DecodeField(k) case Some(key) => Del(c, key).0 case None => c)
    case Unreadable => c
  }

  ghost predicate Enabled(env: Replayer, s: Stage, step: Step) {
    match step
    case Apply(buckets) => s.done < |env.lines| && s.cache.buckets <= buckets
    case Collect(keys) =>
      s.batch == [] && Distinct(keys) && (set k | k in keys) == ExpiredKeys(s.cache.expiries, s.clock)
    case CallBack => s.batch != []
    case Tick(_) => true
  }

  function Next(env: Replayer, s: Stage, step: Step): Stage
    requires (step.Apply? ==> s.done < |env.lines|) && (step.CallBack? ==> s.batch != [])
  {
    match step
    case Apply(buckets) =>
      s.(done := s.done + 1,
         cache := ApplyLine(env.limits, env.spare(s.done), s.cache, env.lines[s.done], buckets, s.clock))
    case Collect(keys) => s.(cache := AfterCollect(s.cache, s.clock), batch := keys)
    case CallBack => s.(cache := ExpireKey(s.cache, s.batch[0]), batch := s.batch[1..])
    case Tick(elapsed) => s.(clock := s.clock + elapsed)
  }

  /** The stage after `steps`, or nothing if some step was not enabled. */
  ghost function RunSteps(env: Replayer, s: Stage, steps: seq<Step>): Option<Stage> {
    if steps == [] then Some(s)
    else
      match RunSteps(env, s, steps[..|steps| - 1])
      case None => None
      case Some(q) =>
        if Enabled(env, q, steps[|steps| - 1]) then Some(Next(env, q, steps[|steps| - 1])) else None
  }

  lemma RunSnoc(env: Replayer, s: Stage, steps: seq<Step>, step: Step)
    requires RunSteps(env, s, steps).Some? && Enabled(env, RunSteps(env, s, steps).value, step)
    ensures RunSteps(env, s, steps + [step]) == Some(Next(env, RunSteps(env, s, steps).value, step))
  {
    hide Enabled, Next;
    assert (steps + [step])[..|steps|] == steps;
  }

  // ---------------------------------------------------------------- what a replay leaves

  /** Whether the storage refuses a record: a SET that can be read, of a value too large to store. */
  predicate Refused(limits: Limits, spare: nat, r: Record) {
    && r.SetRecord? && DecodeField(r.key).Some? && DecodeField(r.value).Some?
    && var value := DecodeField(r.value).value;
       !CanStore(limits, DecodeField(r.key).value, value, |value| + spare)
  }

  /** The values a log leaves when the records that the storage refuses are passed over. */
  function Kept(limits: Limits, spare: nat -> nat, lines: seq<Record>): map<Bytes, Bytes> {
    if lines == [] then map[]
    else
      var n := |lines| - 1;
      var before := Kept(limits, spare, lines[..n]);
      if Refused(limits, spare(n), lines[n]) then before else ApplyRecord(before, lines[n])
  }

  lemma LineAccounted(limits: Limits, spare: nat, logged: map<Bytes, Bytes>, c: Cache, r: Record, buckets: nat,
                      now: nat)
    requires Consistent(c) && WithinBudget(c, limits.memory) && Accounted(logged, c) && c.buckets <= buckets
    ensures var c' := ApplyLine(limits, spare, c, r, buckets, now);
            && Consistent(c') && WithinBudget(c', limits.memory)
            && Accounted(if Refused(limits, spare, r) then logged else ApplyRecord(logged, r), c')
  {
    hide Accounted, Consistent, WithinBudget, Del, CanStore;
    match r
    case SetRecord(k, v, ttl) =>
      if DecodeField(k).Some? && DecodeField(v).Some? {
        var value := DecodeField(v).value;
        var p := Put(DecodeField(k).value, value, |value| + spare, ttl, buckets);
        SetKeeps(c, limits, p, now);
        if CanStore(limits, p.key, p.value, p.capacity) { SetAccounted(logged, c, limits, p, now); }
      }
    case DelRecord(k) =>
      if DecodeField(k).Some? {
        DelKeeps(c, DecodeField(k).value, limits.memory);
        DelAccounted(logged, c, DecodeField(k).value);
      }
    case Unreadable =>
  }

  /** What holds at every stage: the lines done, less those refused, account for the cache. */
  ghost predicate StageOk(env: Replayer, s: Stage) {
    && s.done <= |env.lines| && Consistent(s.cache) && WithinBudget(s.cache, env.limits.memory)
    && Accounted(Kept(env.limits, env.spare, env.lines[..s.done]), s.cache)
  }

  lemma StepOk(env: Replayer, s: Stage, step: Step)
    requires StageOk(env, s) && Enabled(env, s, step)
    ensures StageOk(env, Next(env, s, step))
  {
    hide Accounted, Consistent, WithinBudget, ApplyLine, ExpireKey, AfterCollect;
    var kept, c := Kept(env.limits, env.spare, env.lines[..s.done]), s.cache;
    match step
    case Apply(buckets) =>
      assert env.lines[..s.done + 1][..s.done] == env.lines[..s.done];
      LineAccounted(env.limits, env.spare(s.done), kept, c, env.lines[s.done], buckets, s.clock);
    case Collect(keys) =>
      SweepAccounted(kept, c, s.clock, []);
      CollectKeeps(c, s.clock, env.limits.memory);
    case CallBack =>
      SweepAccounted(kept, c, s.clock, s.batch[0]);
      ExpireKeeps(c, s.batch[0], env.limits.memory);
    case Tick(_) =>
  }

  lemma CollectKeeps(c: Cache, now: nat, limit: nat)
    requires Consistent(c) && WithinBudget(c, limit)
    ensures Consistent(AfterCollect(c, now)) && WithinBudget(AfterCollect(c, now), limit)
  {
  }

  /**
   Over every run of a replay with the sweeper: every stored value is the last one that the lines done give its key,
   those refused passed over; and nothing is missing that was not evicted or expired.
   */
  lemma {:induction false} ReplayAccounted(env: Replayer, buckets: nat, clock: nat, steps: seq<Step>)
    requires RunSteps(env, Beginning(buckets, clock), steps).Some?
    ensures StageOk(env, RunSteps(env, Beginning(buckets, clock), steps).value)
    decreases |steps|
  {
    if steps == [] {
      assert ValuesOf(map[]) == map[] && env.lines[..0] == [];
    } else {
      hide StageOk, Enabled, Next;
      var n := |steps| - 1;
      ReplayAccounted(env, buckets, clock, steps[..n]);
      StepOk(env, RunSteps(env, Beginning(buckets, clock), steps[..n]).value, steps[n]);
    }
  }

  // ---------------------------------------------------------------- deadlines

  /** An accepted SET line gives its key, if that stays, its value and its whole duration from now on. */
  lemma ReplayedSet(env: Replayer, s: Stage, buckets: nat, key: Bytes, value: Bytes)
    requires Consistent(s.cache) && Enabled(env, s, Apply(buckets))
    requires var r := env.lines[s.done];
             r.SetRecord? && Holds(r.key, key) && Holds(r.value, value) && !Refused(env.limits, env.spare(s.done), r)
    ensures var c, ttl := Next(env, s, Apply(buckets)).cache, env.lines[s.done].ttl;
            && (key in c.data ==> c.data[key].value == value && DueAfter(c.expiries, key, ttl, s.clock))
            && forall k :: k in c.data && k != key ==> SameEntry(s.cache, c, k)
  {
    hide Consistent, CacheModel.Set, CanStore, DecodeField, DueAfter, SameEntry;
    var r, spare := env.lines[s.done], env.spare(s.done);
    FieldReads(r.key, key);
    FieldReads(r.value, value);
    SetEntries(s.cache, env.limits, Put(key, value, |value| + spare, r.ttl, buckets), s.clock);
  }

  /** A DEL line takes its key away, and leaves every other as it was. */
  lemma ReplayedDel(env: Replayer, s: Stage, buckets: nat, key: Bytes)
    requires Enabled(env, s, Apply(buckets)) && env.lines[s.done].DelRecord? && Holds(env.lines[s.done].key, key)
    ensures var c := Next(env, s, Apply(buckets)).cache;
            key !in c.data && forall k :: k in s.cache.data && k != key ==> SameEntry(s.cache, c, k)
  {
    hide DecodeField;
    FieldReads(env.lines[s.done].key, key);
  }

  /** A line that cannot be read, or lacks a field it needs, is passed over. */
  lemma ReplayedNothing(env: Replayer, s: Stage, buckets: nat)
    requires Enabled(env, s, Apply(buckets))
    requires match env.lines[s.done]
             case SetRecord(key, value, _) => key.Absent? || value.Absent?
             case DelRecord(key) => key.Absent?
             case Unreadable => true
    ensures Next(env, s, Apply(buckets)) == s.(done := s.done + 1)
  {
  }

  /** The clock after `steps`, and how many lines they apply. */
  function TimeOf(clock: nat, steps: seq<Step>): nat {
    if steps == [] then clock
    else
      TimeOf(clock, steps[..|steps| - 1]) + if steps[|steps| - 1].Tick? then steps[|steps| - 1].elapsed else 0
  }

  function Applied(steps: seq<Step>): nat {
    if steps == [] then 0 else Applied(steps[..|steps| - 1]) + if steps[|steps| - 1].Apply? then 1 else 0
  }

  /** The deadline that each key's last SET line gave it, of those that are applied and not refused. */
  function Given(env: Replayer, clock: nat, steps: seq<Step>): map<Bytes, Option<nat>> {
    if steps == [] then map[]
    else
      var earlier := steps[..|steps| - 1];
      var given, i := Given(env, clock, earlier), Applied(earlier);
      if steps[|steps| - 1].Apply? && i < |env.lines| then
        GivenBy(given, env.lines[i], Refused(env.limits, env.spare(i), env.lines[i]), TimeOf(clock, earlier))
      else given
  }

  function GivenBy(given: map<Bytes, Option<nat>>, r: Record, refused: bool, now: nat): map<Bytes, Option<nat>> {
    if r.SetRecord? && DecodeField(r.key).Some? && DecodeField(r.value).Some? && !refused
    then given[DecodeField(r.key).value := if r.ttl > 0 then Some(now + r.ttl * 1_000_000_000) else None]
    else given
  }

  /** Every stored key that the sweeper does not hold has the deadline it was given. */
  ghost predicate Dated(c: Cache, batch: seq<Bytes>, given: map<Bytes, Option<nat>>) {
    forall k :: k in c.data && k !in batch ==>
      k in given && given[k] == if k in c.expiries then Some(c.expiries[k]) else None
  }

  lemma LineDated(limits: Limits, spare: nat, c: Cache, batch: seq<Bytes>, given: map<Bytes, Option<nat>>, r: Record,
                  buckets: nat, now: nat)
    requires Consistent(c) && Dated(c, batch, given)
    ensures var refused := Refused(limits, spare, r);
            Dated(ApplyLine(limits, spare, c, r, buckets, now), batch, GivenBy(given, r, refused, now))
  {
    hide Consistent, CacheModel.Set, CanStore, DecodeField;
    if r.SetRecord? && DecodeField(r.key).Some? && DecodeField(r.value).Some? {
      var key, value := DecodeField(r.key).value, DecodeField(r.value).value;
      var p := Put(key, value, |value| + spare, r.ttl, buckets);
      if CanStore(limits, key, value, p.capacity) {
        SetEntries(c, limits, p, now);
      } else {
        RefusedSet(c, limits, p, now);
      }
    }
  }

  lemma RefusedSet(c: Cache, limits: Limits, p: Put, now: nat)
    requires !CanStore(limits, p.key, p.value, p.capacity)
    ensures CacheModel.Set(c, limits, p, now) == c
  {
  }

  lemma CollectDated(c: Cache, given: map<Bytes, Option<nat>>, keys: seq<Bytes>, now: nat)
    requires Dated(c, [], given) && (set k | k in keys) == ExpiredKeys(c.expiries, now)
    ensures Dated(AfterCollect(c, now), keys, given)
  {
    forall k | k !in keys ensures k !in ExpiredKeys(c.expiries, now) {
      assert k !in (set x | x in keys);
    }
  }

  lemma StepDated(env: Replayer, s: Stage, step: Step, given: map<Bytes, Option<nat>>)
    requires StageOk(env, s) && Enabled(env, s, step) && Dated(s.cache, s.batch, given)
    ensures var s' := Next(env, s, step);
            Dated(s'.cache, s'.batch,
                  if step.Apply? then GivenBy(given, env.lines[s.done], Refused(env.limits, env.spare(s.done),
                                                                               env.lines[s.done]), s.clock)
                  else given)
  {
    hide Consistent, ApplyLine, Accounted, WithinBudget, Kept, GivenBy, Refused;
    match step
    case Apply(buckets) =>
      LineDated(env.limits, env.spare(s.done), s.cache, s.batch, given, env.lines[s.done], buckets, s.clock);
    case Collect(keys) => CollectDated(s.cache, given, keys, s.clock);
    case CallBack =>
    case Tick(_) =>
  }

  /**
   Over every run of a replay with the sweeper: a stored key that the sweeper does not hold has the deadline that its
   last kept SET line gave it, its whole duration counted from when that line was applied.
   */
  lemma {:induction false} ReplayDeadlines(env: Replayer, buckets: nat, clock: nat, steps: seq<Step>)
    requires RunSteps(env, Beginning(buckets, clock), steps).Some?
    ensures var s := RunSteps(env, Beginning(buckets, clock), steps).value;
            && s.clock == TimeOf(clock, steps) && s.done == Applied(steps)
            && Dated(s.cache, s.batch, Given(env, clock, steps))
    decreases |steps|
  {
    if steps != [] {
      hide StageOk, Enabled, Dated, GivenBy, Refused, ApplyLine;
      var n := |steps| - 1;
      ReplayDeadlines(env, buckets, clock, steps[..n]);
      ReplayAccounted(env, buckets, clock, steps[..n]);
      var s := RunSteps(env, Beginning(buckets, clock), steps[..n]).value;
      StepDated(env, s, steps[n], Given(env, clock, steps[..n]));
      if steps[n].Apply? { EnabledApply(env, s, steps[n]); }
    }
  }

  lemma EnabledApply(env: Replayer, s: Stage, step: Step)
    requires Enabled(env, s, step) && step.Apply?
    ensures s.done < |env.lines|
  {
  }

  // ---------------------------------------------------------------- replays compared

  /** Two replays refuse the same of the first `n` lines. */
  ghost predicate RefusedAlike(a: Replayer, b: Replayer, n: nat)
    requires n <= |a.lines| && n <= |b.lines|
  {
    forall i :: 0 <= i < n ==>
      (Refused(a.limits, a.spare(i), a.lines[i]) <==> Refused(b.limits, b.spare(i), b.lines[i]))
  }

  ghost predicate NoneRefused(a: Replayer, from: nat) {
    forall i :: from <= i < |a.lines| ==> !Refused(a.limits, a.spare(i), a.lines[i])
  }

  lemma KeptSnoc(limits: Limits, spare: nat -> nat, lines: seq<Record>, n: nat)
    requires n < |lines|
    ensures var before := Kept(limits, spare, lines[..n]);
            Kept(limits, spare, lines[..n + 1]) ==
            if Refused(limits, spare(n), lines[n]) then before else ApplyRecord(before, lines[n])
  {
    hide Refused, ApplyRecord;
    assert lines[..n + 1][..n] == lines[..n];
  }

  /** Replays that refuse the same of the first lines keep the same of them. */
  lemma {:induction false} SameKept(a: Replayer, b: Replayer, n: nat)
    requires n <= |a.lines| && n <= |b.lines| && a.lines[..n] == b.lines[..n] && RefusedAlike(a, b, n)
    ensures Kept(a.limits, a.spare, a.lines[..n]) == Kept(b.limits, b.spare, b.lines[..n])
  {
    hide Refused, ApplyRecord;
    if n > 0 {
      hide Kept;
      assert a.lines[n - 1] == a.lines[..n][n - 1] == b.lines[..n][n - 1] == b.lines[n - 1];
      assert a.lines[..n][..n - 1] == a.lines[..n - 1] && b.lines[..n][..n - 1] == b.lines[..n - 1];
      SameKept(a, b, n - 1);
      KeptSnoc(a.limits, a.spare, a.lines, n - 1);
      KeptSnoc(b.limits, b.spare, b.lines, n - 1);
    }
  }

  /** Lines of which none is refused are all applied to what was kept before them. */
  lemma {:induction false} KeptOnward(a: Replayer, from: nat, n: nat)
    requires from <= n <= |a.lines| && NoneRefused(a, from)
    ensures Kept(a.limits, a.spare, a.lines[..n]) == Onward(Kept(a.limits, a.spare, a.lines[..from]), a.lines[from..n])
    decreases n
  {
    hide Refused, ApplyRecord, Kept;
    if n > from {
      KeptOnward(a, from, n - 1);
      KeptSnoc(a.limits, a.spare, a.lines, n - 1);
      assert a.lines[from..n][..n - 1 - from] == a.lines[from..n - 1];
    }
  }
}

/** The logger and its replay. */
module AofLogging {
  import opened ByteStrings
  import opened CacheModel
  import opened AofLog
  import opened AofReplay
  import opened StorageEngine
  import B64 = Base64

  class AOFLogger {
    /** The file, line by line. */
    var lines: seq<Record>

    constructor (lines: seq<Record>)
      ensures this.lines == lines
    {
      this.lines := lines;
    }

    method LogSet(key: Bytes, value: Bytes, ttl: int)
      modifies this
      ensures lines == old(lines) + [SetLine(key, value, ttl)]
    {
      var key64 := B64.Base64Encode(key);
      var value64 := B64.Base64Encode(value);
      lines := lines + [SetRecord(Encoded(key64), Encoded(value64), ttl)];
    }

    method LogDel(key: Bytes)
      modifies this
      ensures lines == old(lines) + [DelLine(key)]
    {
      var key64 := B64.Base64Encode(key);
      lines := lines + [DelRecord(Encoded(key64))];
    }
  }

  method ReadField(f: Field) returns (text: Option<Bytes>)
    ensures text == DecodeField(f)
  {
    match f
    case Encoded(t) =>
      var ok, output := B64.Base64Decode(t);
      return if ok then Some(output) else None;
    case Plain(t) => return Some(t);
    case Absent => return None;
  }

  /** Any number of the sweeper's steps, and time passing between them. */
  method SweeperRuns(storage: Storage, batch: seq<Bytes>, now: nat, ghost env: Replayer, ghost s0: Stage,
                     ghost steps: seq<Step>, ghost done: nat)
    returns (batch': seq<Bytes>, now': nat, ghost steps': seq<Step>)
    requires storage.Valid() && RunSteps(env, s0, steps) == Some(Stage(done, storage.Abs(), batch, now))
    modifies storage.Repr()
    ensures storage.Valid() && fresh(storage.Repr() - old(storage.Repr()))
    ensures RunSteps(env, s0, steps') == Some(Stage(done, storage.Abs(), batch', now'))
  {
    hide Storage.Valid, Storage.Abs, AfterCollect, ExpireKey, RunSteps;
    batch', now', steps' := batch, now, steps;
    var turns: nat :| 0 <= turns;
    for i := 0 to turns
      invariant storage.Valid() && fresh(storage.Repr() - old(storage.Repr()))
      invariant RunSteps(env, s0, steps') == Some(Stage(done, storage.Abs(), batch', now'))
    {
      var elapsed: nat :| 0 <= elapsed;
      RunSnoc(env, s0, steps', Tick(elapsed));
      now', steps' := now' + elapsed, steps' + [Tick(elapsed)];
      if batch' == [] {
        batch' := storage.CollectExpired(now');
        RunSnoc(env, s0, steps', Collect(batch'));
        steps' := steps' + [Collect(batch')];
      } else {
        storage.Expire(batch'[0]);
        RunSnoc(env, s0, steps', CallBack);
        batch', steps' := batch'[1..], steps' + [CallBack];
      }
    }
  }

  /**
   Replays a log into an empty storage, with the sweeper running. The allocator's bucket counts, the clock and the
   sweeper's turns are whatever they turn out to be; `steps` is what happened. Every line was applied once, in order,
   and the storage stands where that leaves it.
   */
  method Replay(log: AOFLogger, storage: Storage, spare: nat -> nat, start: nat)
    returns (ghost steps: seq<Step>, ghost last: Stage)
    requires storage.Valid() && storage.Abs() == EMPTY.(buckets := storage.buckets)
    modifies storage.Repr()
    ensures storage.Valid() && fresh(storage.Repr() - old(storage.Repr()))
    ensures var before := Beginning(old(storage.buckets), start);
            RunSteps(Replayer(storage.limits, spare, log.lines), before, steps) == Some(last)
    ensures last.done == |log.lines| && last.cache == storage.Abs()
    ensures Accounted(Kept(storage.limits, spare, log.lines), storage.Abs())
    ensures Dated(storage.Abs(), last.batch, Given(Replayer(storage.limits, spare, log.lines), start, steps))
  {
    hide Storage.Valid, Storage.Abs, RunSteps, Accounted, Kept, ApplyLine, Dated, Given;
    ghost var env, s0 := Replayer(storage.limits, spare, log.lines), Beginning(storage.buckets, start);
    var lines, batch, now := log.lines, [], start;
    steps := [];
    NoSteps(env, s0);
    for i := 0 to |lines|
      invariant storage.Valid() && fresh(storage.Repr() - old(storage.Repr()))
      invariant RunSteps(env, s0, steps) == Some(Stage(i, storage.Abs(), batch, now))
    {
      batch, now, steps := SweeperRuns(storage, batch, now, env, s0, steps, i);
      var buckets := ReplayLine(lines[i], storage, spare(i), now);
      RunSnoc(env, s0, steps, Apply(buckets));
      steps := steps + [Apply(buckets)];
    }
    last := Stage(|lines|, storage.Abs(), batch, now);
    ReplayAccounted(env, s0.cache.buckets, start, steps);
    ReplayDeadlines(env, s0.cache.buckets, start, steps);
    assert lines[..|lines|] == lines;
  }

  lemma NoSteps(env: Replayer, s: Stage)
    ensures RunSteps(env, s, []) == Some(s)
  {
  }

  /** One line of the log; `buckets` is the size of the bucket array, should the line bring a new key. */
  method ReplayLine(line: Record, storage: Storage, spare: nat, now: nat) returns (buckets: nat)
    requires storage.Valid()
    modifies storage.Repr()
    ensures storage.Valid() && fresh(storage.Repr() - old(storage.Repr()))
    ensures old(storage.Abs()).buckets <= buckets
    ensures storage.Abs() == ApplyLine(storage.limits, spare, old(storage.Abs()), line, buckets, now)
  {
    hide Storage.Valid, Storage.Abs, CacheModel.Set, Del, DecodeField;
    buckets := SomeBuckets(storage);
    match line
    case SetRecord(k, v, ttl) =>
      var key := ReadField(k);
      var value := ReadField(v);
      if key.Some? && value.Some? {
        ReplaySet(Put(key.value, value.value, |value.value| + spare, ttl, buckets), storage, now);
      }
    case DelRecord(k) =>
      var key := ReadField(k);
      if key.Some? {
        var removed := storage.Del(key.value);
      }
    case Unreadable =>
  }

  /** A table never shrinks. */
  method SomeBuckets(storage: Storage) returns (buckets: nat)
    ensures storage.Abs().buckets <= buckets
  {
    buckets :| storage.buckets <= buckets;
  }

  method ReplaySet(p: Put, storage: Storage, now: nat)
    requires storage.Valid() && p.Valid(storage.Abs().buckets)
    modifies storage.Repr()
    ensures storage.Valid() && fresh(storage.Repr() - old(storage.Repr()))
    ensures storage.Abs() == Set(old(storage.Abs()), storage.limits, p, now)
  {
    hide Storage.Valid, CacheModel.Set, CanStore;
    var ok := storage.Set(p, now);
  }
}
