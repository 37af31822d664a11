/** Least-frequently-used order: counts, when they were reached, and what they mean over a history. */
module LfuOrder {
  import opened ByteStrings

  /** `since` is the time at which the key reached `freq`. */
  datatype Stat = Stat(size: nat, freq: nat, since: nat)

  type Table = map<Bytes, Stat>

  predicate Before(a: Stat, b: Stat) { a.freq < b.freq || (a.freq == b.freq && a.since < b.since) }

  function Touch(t: Table, key: Bytes, now: nat): Table {
    if key in t then t[key := Stat(t[key].size, t[key].freq + 1, now)] else t
  }

  function Add(t: Table, key: Bytes, size: nat, now: nat): Table {
    if key in t then t[key := t[key].(size := size)] else t[key := Stat(size, 1, now)]
  }

  /** `key` is the least by count, and among equals by the time the count was reached. */
  ghost predicate IsVictim(t: Table, key: Bytes) {
    key in t && forall k :: k in t && k != key ==> Before(t[key], t[k])
  }

  // ---------------------------------------------------------------- histories

  /** An eviction is recorded with the key it took. */
  datatype Op = DoTouch(key: Bytes) | DoAdd(key: Bytes, size: nat) | DoRemove(key: Bytes) | DoEvict(key: Bytes)

  function Apply(t: Table, op: Op, now: nat): Table {
    match op
    case DoTouch(key) => Touch(t, key, now)
    case DoAdd(key, size) => Add(t, key, size, now)
    case DoRemove(key) => t - {key}
    case DoEvict(key) => t - {key}
  }

  /** The table after `ops`, each operation taking one unit of time. */
  function Replay(ops: seq<Op>): Table {
    if ops == [] then map[] else Apply(Replay(ops[..|ops| - 1]), ops[|ops| - 1], |ops| - 1)
  }

  /** When the live entry of `key` was inserted. */
  function Inserted(ops: seq<Op>, key: Bytes): (i: Option<nat>)
    ensures i.Some? ==> i.value < |ops|
  {
    if ops == [] then None
    else
      var before := Inserted(ops[..|ops| - 1], key);
      match ops[|ops| - 1]
      case DoAdd(k, _) => if k == key && before.None? then Some(|ops| - 1) else before
      case DoTouch(_) => before
      case DoRemove(k) => if k == key then None else before
      case DoEvict(k) => if k == key then None else before
  }

  /** How often `key` is touched from time `from` on. */
  function Touches(ops: seq<Op>, from: nat, key: Bytes): nat
    decreases |ops|
  {
    if |ops| <= from then 0
    else Touches(ops[..|ops| - 1], from, key) + if ops[|ops| - 1] == DoTouch(key) then 1 else 0
  }

  /** The last time from `from` on that `key` is touched, or `from`. */
  function LastTouch(ops: seq<Op>, from: nat, key: Bytes): nat
    decreases |ops|
  {
    if |ops| <= from then from
    else if ops[|ops| - 1] == DoTouch(key) then |ops| - 1
    else LastTouch(ops[..|ops| - 1], from, key)
  }

  /** What the history alone says of a live key: one more than its touches since insertion, and when it got there. */
  datatype Rank = Rank(count: nat, reached: nat)

  function HistoryRank(ops: seq<Op>, key: Bytes): Option<Rank> {
    match Inserted(ops, key)
    case None => None
    case Some(i) => Some(Rank(1 + Touches(ops, i, key), LastTouch(ops, i, key)))
  }

  predicate Below(a: Rank, b: Rank) { a.count < b.count || (a.count == b.count && a.reached < b.reached) }

  /** Over any history, the table holds exactly the live keys, each with the rank its history gives it. */
  lemma {:induction false} TableIsHistory(ops: seq<Op>, key: Bytes)
    ensures var t := Replay(ops);
            HistoryRank(ops, key) == if key in t then Some(Rank(t[key].freq, t[key].since)) else None
  {
    if ops != [] {
      var k := |ops| - 1;
      TableIsHistory(ops[..k], key);
      var i := Inserted(ops, key);
      assert Replay(ops) == Apply(Replay(ops[..k]), ops[k], k);
      if i == Some(k) {
        assert Touches(ops, k, key) == Touches(ops[..k], k, key) == 0;
        assert LastTouch(ops, k, key) == LastTouch(ops[..k], k, key) == k;
      }
    }
  }

  /** The victim rule read off the history alone: the live key of least rank. */
  lemma VictimByHistory(ops: seq<Op>, key: Bytes)
    ensures IsVictim(Replay(ops), key) <==>
            && HistoryRank(ops, key).Some?
            && forall k :: k != key && HistoryRank(ops, k).Some? ==>
                 Below(HistoryRank(ops, key).value, HistoryRank(ops, k).value)
  {
    hide HistoryRank, Replay;
    var t := Replay(ops);
    forall k ensures HistoryRank(ops, k) == if k in t then Some(Rank(t[k].freq, t[k].since)) else None {
      TableIsHistory(ops, k);
    }
    assert forall k :: k in t ==> HistoryRank(ops, k).Some?;
  }
}

/** The LFU policy: frequency buckets, each a list with its newest key in front, and a lazy minimum. */
module LfuPolicy {
  import opened ByteStrings
  import opened Sequences
  import opened MapSums
  import opened LfuOrder

  /** A list node; its address is what an iterator into a bucket holds. */
  class Node {
    const key: Bytes

    constructor (key: Bytes)
      ensures this.key == key
    {
      this.key := key;
    }
  }

  datatype Entry = Entry(size: nat, freq: nat, it: Node)

  type Buckets = map<nat, seq<Node>>

  ghost function Cost(key: Bytes, e: Entry): nat { |key| + e.size }

  /** `buckets_[f]`, where an absent bucket reads as empty. */
  function Bucket(buckets: Buckets, f: nat): seq<Node> { if f in buckets then buckets[f] else [] }

  /** Every entry's iterator is a node of its own key in its own bucket. */
  ghost predicate Filed(entries: map<Bytes, Entry>, buckets: Buckets) {
    forall k :: k in entries ==> entries[k].it.key == k && entries[k].it in Bucket(buckets, entries[k].freq)
  }

  /** Every node of every bucket belongs to an entry. */
  ghost predicate Owned(entries: map<Bytes, Entry>, buckets: Buckets) {
    forall f: nat, n :: n in Bucket(buckets, f) ==>
      n.key in entries && entries[n.key].it == n && entries[n.key].freq == f
  }

  /** A bucket holds its keys newest first. */
  ghost predicate Newest(bucket: seq<Node>, since: map<Bytes, nat>) {
    && (forall n :: n in bucket ==> n.key in since)
    && forall i, j :: 0 <= i < j < |bucket| ==> since[bucket[i].key] > since[bucket[j].key]
  }

  ghost predicate AllNewest(buckets: Buckets, since: map<Bytes, nat>) {
    forall f: nat :: Newest(Bucket(buckets, f), since)
  }

  /** Counts start at 1, and `low` is a lower bound on them. */
  ghost predicate AtLeast(entries: map<Bytes, Entry>, low: nat) {
    forall k :: k in entries ==> 1 <= entries[k].freq && low <= entries[k].freq
  }

  /** No two keys reached their counts at the same time. */
  ghost predicate DistinctTimes(since: map<Bytes, nat>) {
    forall k, l :: k in since && l in since && k != l ==> since[k] != since[l]
  }

  /** Forgetting a key, and setting one to a time later than all others, keep times apart. */
  lemma TimesApart(since: map<Bytes, nat>, key: Bytes, clock: nat)
    requires DistinctTimes(since) && forall k :: k in since ==> since[k] < clock
    ensures DistinctTimes(since - {key}) && DistinctTimes(since[key := clock])
  {
  }

  /** `n` out of bucket `f`. */
  function Dropped(buckets: Buckets, f: nat, n: Node): Buckets {
    buckets[f := Erase(Bucket(buckets, f), Position(Bucket(buckets, f), n))]
  }

  /** `n` at the front of bucket `f`. */
  function Pushed(buckets: Buckets, f: nat, n: Node): Buckets {
    buckets[f := [n] + Bucket(buckets, f)]
  }

  lemma DroppedMembers(buckets: Buckets, since: map<Bytes, nat>, f: nat, n: Node)
    requires AllNewest(buckets, since) && n in Bucket(buckets, f)
    ensures var buckets' := Dropped(buckets, f, n);
            && (forall g: nat, x :: x in Bucket(buckets', g) ==> x in Bucket(buckets, g) && !(g == f && x == n))
            && (forall g: nat, x :: x in Bucket(buckets, g) && !(g == f && x == n) ==> x in Bucket(buckets', g))
            && (forall g: nat :: g != f ==> Bucket(buckets', g) == Bucket(buckets, g))
  {
    var b := Bucket(buckets, f);
    assert Newest(b, since);
    assert Distinct(b);
    EraseMembers(b, Position(b, n));
    hide Erase, Position;
  }

  lemma DroppedFiled(entries: map<Bytes, Entry>, buckets: Buckets, since: map<Bytes, nat>, key: Bytes)
    requires Filed(entries, buckets) && Owned(entries, buckets) && AllNewest(buckets, since) && key in entries
    ensures var buckets' := Dropped(buckets, entries[key].freq, entries[key].it);
            Filed(entries - {key}, buckets') && Owned(entries - {key}, buckets')
  {
    hide AllNewest, Dropped, Bucket;
    var e, entries' := entries[key], entries - {key};
    var buckets' := Dropped(buckets, e.freq, e.it);
    DroppedMembers(buckets, since, e.freq, e.it);
    forall k | k in entries' ensures entries'[k].it.key == k && entries'[k].it in Bucket(buckets', entries'[k].freq) {
      assert entries[k].it != e.it;
    }
    forall g: nat, x | x in Bucket(buckets', g)
      ensures x.key in entries' && entries'[x.key].it == x && entries'[x.key].freq == g
    {
      assert x in Bucket(buckets, g) && !(g == e.freq && x == e.it);
      assert entries[x.key].it == x && entries[x.key].freq == g;
    }
  }

  lemma DroppedNewest(entries: map<Bytes, Entry>, buckets: Buckets, since: map<Bytes, nat>, key: Bytes)
    requires Filed(entries, buckets) && Owned(entries, buckets) && AllNewest(buckets, since) && key in entries
    ensures AllNewest(Dropped(buckets, entries[key].freq, entries[key].it), since - {key})
  {
    hide Newest, Erase, Position, Owned;
    var f, n := entries[key].freq, entries[key].it;
    var buckets' := Dropped(buckets, f, n);
    DroppedFiled(entries, buckets, since, key);
    DroppedMembers(buckets, since, f, n);
    forall g: nat ensures Newest(Bucket(buckets', g), since - {key}) {
      assert Newest(Bucket(buckets, g), since);
      OtherKeys(entries, buckets', key, g);
      if g == f {
        EraseNewest(Bucket(buckets, f), since, Position(Bucket(buckets, f), n));
      }
      NewestWithout(Bucket(buckets', g), since, key);
    }
  }

  lemma OtherKeys(entries: map<Bytes, Entry>, buckets: Buckets, key: Bytes, g: nat)
    requires Owned(entries - {key}, buckets)
    ensures forall x :: x in Bucket(buckets, g) ==> x.key != key
  {
    hide Bucket;
  }

  lemma EraseNewest(b: seq<Node>, since: map<Bytes, nat>, i: nat)
    requires Newest(b, since)
    ensures Newest(Erase(b, i), since)
  {
    var b' := Erase(b, i);
    assert i < |b| ==> forall j :: 0 <= j < |b'| ==> b'[j] == b[if j < i then j else j + 1];
  }

  lemma NewestWithout(b: seq<Node>, since: map<Bytes, nat>, key: Bytes)
    requires Newest(b, since) && forall x :: x in b ==> x.key != key
    ensures Newest(b, since - {key})
  {
  }

  lemma PushedFiled(entries: map<Bytes, Entry>, buckets: Buckets, key: Bytes, size: nat, f: nat, n: Node)
    requires Filed(entries, buckets) && Owned(entries, buckets) && key !in entries && n.key == key
    ensures var buckets' := Pushed(buckets, f, n);
            Filed(entries[key := Entry(size, f, n)], buckets') && Owned(entries[key := Entry(size, f, n)], buckets')
  {
    assert forall g: nat, x :: x in Bucket(Pushed(buckets, f, n), g) <==> x in Bucket(buckets, g) || (g == f && x == n);
    hide Pushed, Bucket;
  }

  lemma PushedNewest(buckets: Buckets, since: map<Bytes, nat>, f: nat, n: Node, now: nat)
    requires AllNewest(buckets, since) && n.key !in since && forall k :: k in since ==> since[k] < now
    ensures AllNewest(Pushed(buckets, f, n), since[n.key := now])
  {
    forall g: nat ensures Newest(Bucket(Pushed(buckets, f, n), g), since[n.key := now]) {
      assert Newest(Bucket(buckets, g), since);
      var b := Bucket(buckets, g);
      if g == f {
        assert forall j :: 0 < j < |[n] + b| ==> ([n] + b)[j] == b[j - 1];
      }
    }
  }

  lemma InBucket(entries: map<Bytes, Entry>, buckets: Buckets, key: Bytes)
    requires Filed(entries, buckets) && key in entries
    ensures entries[key].it in Bucket(buckets, entries[key].freq) && Bucket(buckets, entries[key].freq) != []
    ensures entries[key].it.key == key
  {
  }

  lemma EmptyBucket(entries: map<Bytes, Entry>, buckets: Buckets, f: nat)
    requires Filed(entries, buckets) && Bucket(buckets, f) == []
    ensures forall k :: k in entries ==> entries[k].freq != f
  {
    forall k | k in entries ensures entries[k].freq != f { InBucket(entries, buckets, k); }
  }

  class LFU {
    var entries: map<Bytes, Entry>
    var buckets: Buckets
    var minFreq: nat
    var memoryUsed: nat
    /** One tick per operation, and the tick at which each key reached its count. */
    ghost var clock: nat
    ghost var since: map<Bytes, nat>
    /** Every operation so far. */
    ghost var ops: seq<Op>

    ghost predicate Valid()
      reads this
    {
      ValidExceptClock() && forall k :: k in since ==> since[k] < clock
    }

    /** As `Valid`, except that a key may have reached its count at this very tick. */
    ghost predicate ValidExceptClock()
      reads this
    {
      && Filed(entries, buckets) && Owned(entries, buckets)
      && AllNewest(buckets, since)
      && AtLeast(entries, minFreq)
      && since.Keys == entries.Keys
      && (forall k :: k in since ==> since[k] <= clock) && DistinctTimes(since)
      && memoryUsed == SumMap(Cost, entries)
    }

    ghost function Abs(): Table
      reads this
      requires since.Keys == entries.Keys
    {
      map k | k in entries :: Stat(entries[k].size, entries[k].freq, since[k])
    }

    /** The table is what the history of operations says, and the clock has ticked once for each. */
    ghost predicate Recorded()
      reads this
      requires since.Keys == entries.Keys
    {
      clock == |ops| && Abs() == Replay(ops)
    }

    constructor ()
      ensures Valid() && Abs() == map[] && clock == 0 && Recorded()
    {
      entries, buckets, minFreq, memoryUsed, clock, since, ops := map[], map[], 0, 0, 0, map[], [];
    }

    /** The operation is over. */
    ghost method Record(op: Op)
      modifies this`clock, this`ops
      ensures clock == old(clock) + 1 && ops == old(ops) + [op]
    {
      clock, ops := clock + 1, ops + [op];
    }

    static lemma ReplaySnoc(ops: seq<Op>, op: Op)
      ensures Replay(ops + [op]) == Apply(Replay(ops), op, |ops|)
    {
      assert (ops + [op])[..|ops|] == ops;
    }

    /** `buckets_[e.freq].erase(e.it)`, with the lazy step of the minimum that follows it. */
    method Unfile(key: Bytes)
      requires Valid() && key in entries
      modifies this`buckets, this`minFreq
      ensures Filed(entries - {key}, buckets) && Owned(entries - {key}, buckets)
      ensures AllNewest(buckets, since - {key})
      ensures AtLeast(entries - {key}, minFreq) && minFreq <= entries[key].freq + 1
    {
      hide Filed, Owned, AllNewest, Newest, DistinctTimes;
      var e := entries[key];
      InBucket(entries, buckets, key);
      DroppedFiled(entries, buckets, since, key);
      DroppedNewest(entries, buckets, since, key);
      buckets := Dropped(buckets, e.freq, e.it);
      hide Dropped;
      if Bucket(buckets, e.freq) == [] && e.freq == minFreq {
        ghost var others := entries - {key};
        EmptyBucket(others, buckets, minFreq);
        assert AtLeast(others, minFreq + 1);
        minFreq := minFreq + 1;
      }
    }

    /** `buckets_[f].push_front(key)`, and the iterator to the new node. */
    method File(key: Bytes, size: nat, f: nat)
      requires Filed(entries - {key}, buckets) && Owned(entries - {key}, buckets)
      requires AllNewest(buckets, since - {key})
      requires forall k :: k in since - {key} ==> since[k] < clock
      modifies this`buckets, this`entries, this`since
      ensures Filed(entries, buckets) && Owned(entries, buckets) && AllNewest(buckets, since)
      ensures since == old(since)[key := clock]
      ensures exists n :: entries == old(entries)[key := Entry(size, f, n)]
    {
      hide Filed, Owned, AllNewest, Pushed;
      var n := new Node(key);
      ghost var others, times := entries - {key}, since - {key};
      PushedFiled(others, buckets, key, size, f, n);
      PushedNewest(buckets, times, f, n, clock);
      buckets := Pushed(buckets, f, n);
      entries := entries[key := Entry(size, f, n)];
      since := since[key := clock];
      assert entries == others[key := Entry(size, f, n)] && since == times[key := clock];
    }

    method Touch(key: Bytes)
      requires Valid()
      modifies this
      ensures Valid() && Abs() == LfuOrder.Touch(old(Abs()), key, old(clock)) && clock == old(clock) + 1
      ensures ops == old(ops) + [DoTouch(key)] && (old(Recorded()) ==> Recorded())
    {
      hide Replay, SumMap;
      hide Filed, Owned, AllNewest, DistinctTimes;
      if key in entries {
        Promote(key);
      }
      ReplaySnoc(ops, DoTouch(key));
      Record(DoTouch(key));
    }

    method Promote(key: Bytes)
      requires Valid() && key in entries
      modifies this`entries, this`buckets, this`minFreq, this`memoryUsed, this`since
      ensures ValidExceptClock() && Abs() == LfuOrder.Touch(old(Abs()), key, clock)
    {
      hide Filed, Owned, AllNewest, AtLeast, SumMap, Bucket, Position, DistinctTimes;
      TimesApart(since, key, clock);
      var e := entries[key];
      Unfile(key);
      File(key, e.size, e.freq + 1);
      SumMapRemove(Cost, old(entries), key);
      SumMapAdd(Cost, old(entries), key, entries[key]);
      AtLeastUpdate(old(entries), key, entries[key], minFreq);
      assert Abs() == LfuOrder.Touch(old(Abs()), key, clock);
    }

    static lemma AtLeastUpdate(entries: map<Bytes, Entry>, key: Bytes, e: Entry, low: nat)
      requires AtLeast(entries - {key}, low) && low <= e.freq && 1 <= e.freq
      ensures AtLeast(entries[key := e], low)
    {
      var others, all := entries - {key}, entries[key := e];
      assert forall k :: k in all && k != key ==> k in others && others[k] == all[k];
    }

    method Add(key: Bytes, size: nat)
      requires Valid()
      modifies this
      ensures Valid() && Abs() == LfuOrder.Add(old(Abs()), key, size, old(clock)) && clock == old(clock) + 1
      ensures ops == old(ops) + [DoAdd(key, size)] && (old(Recorded()) ==> Recorded())
    {
      hide Replay, SumMap;
      hide Filed, Owned, AllNewest, DistinctTimes;
      if key in entries {
        Resize(key, size);
      } else {
        Insert(key, size);
      }
      ReplaySnoc(ops, DoAdd(key, size));
      Record(DoAdd(key, size));
    }

    method Insert(key: Bytes, size: nat)
      requires Valid() && key !in entries
      modifies this`entries, this`buckets, this`minFreq, this`memoryUsed, this`since
      ensures ValidExceptClock() && Abs() == LfuOrder.Add(old(Abs()), key, size, clock)
    {
      hide Filed, Owned, AllNewest, AtLeast, SumMap, Bucket, Position, DistinctTimes;
      TimesApart(since, key, clock);
      NotThere(entries, key);
      NotThere(since, key);
      File(key, size, 1);
      LowerToOne(old(entries), minFreq);
      minFreq := 1;
      memoryUsed := memoryUsed + |key| + size;
      SumMapInsert(Cost, old(entries), key, entries[key]);
      AtLeastUpdate(old(entries), key, entries[key], 1);
      assert Abs() == LfuOrder.Add(old(Abs()), key, size, clock);
    }

    static lemma NotThere<V>(m: map<Bytes, V>, key: Bytes)
      requires key !in m
      ensures m - {key} == m
    {
    }

    static lemma LowerToOne(entries: map<Bytes, Entry>, low: nat)
      requires AtLeast(entries, low)
      ensures AtLeast(entries, 1)
    {
    }

    method Resize(key: Bytes, size: nat)
      requires Valid() && key in entries
      modifies this`entries, this`memoryUsed
      ensures Valid() && Abs() == old(Abs())[key := old(Abs())[key].(size := size)]
    {
      hide Filed, Owned, AllNewest, SumMap, Bucket, Position, DistinctTimes;
      var e := entries[key];
      SumMapRemove(Cost, entries, key);
      SumMapAdd(Cost, entries, key, e.(size := size));
      ResizedFiled(entries, buckets, key, size);
      memoryUsed := memoryUsed - (|key| + e.size);
      entries := entries[key := e.(size := size)];
      memoryUsed := memoryUsed + |key| + size;
      assert Abs() == old(Abs())[key := old(Abs())[key].(size := size)];
    }

    static lemma ResizedFiled(entries: map<Bytes, Entry>, buckets: Buckets, key: Bytes, size: nat)
      requires Filed(entries, buckets) && Owned(entries, buckets) && key in entries
      ensures var entries' := entries[key := entries[key].(size := size)];
              Filed(entries', buckets) && Owned(entries', buckets)
    {
      hide Bucket;
    }

    /** What dropping an entry leaves behind. */
    method Forget(key: Bytes)
      requires key in entries && memoryUsed == SumMap(Cost, entries) && since.Keys == entries.Keys
      modifies this`memoryUsed, this`entries, this`since
      ensures entries == old(entries) - {key} && since == old(since) - {key} && memoryUsed == SumMap(Cost, entries)
      ensures Abs() == old(Abs()) - {key}
    {
      SumMapRemove(Cost, entries, key);
      memoryUsed := memoryUsed - (|key| + entries[key].size);
      entries := entries - {key};
      since := since - {key};
      assert Abs() == old(Abs()) - {key};
    }

    method Remove(key: Bytes)
      requires Valid()
      modifies this
      ensures Valid() && Abs() == old(Abs()) - {key} && clock == old(clock) + 1
      ensures ops == old(ops) + [DoRemove(key)] && (old(Recorded()) ==> Recorded())
    {
      hide Replay, SumMap;
      hide Filed, Owned, AllNewest, AtLeast, DistinctTimes;
      TimesApart(since, key, clock);
      if key in entries {
        Unfile(key);
        Forget(key);
      }
      assert Abs() == old(Abs()) - {key};
      ReplaySnoc(ops, DoRemove(key));
      Record(DoRemove(key));
    }

    /** Raises the lazy minimum to the first bucket that holds a key. */
    method Search()
      requires Valid() && entries != map[]
      modifies this`minFreq
      ensures Valid() && Bucket(buckets, minFreq) != []
    {
      hide Filed, Owned, AllNewest, Bucket, DistinctTimes;
      ghost var some :| some in entries;
      while Bucket(buckets, minFreq) == []
        invariant AtLeast(entries, minFreq)
        decreases entries[some].freq - minFreq
      {
        EmptyBucket(entries, buckets, minFreq);
        minFreq := minFreq + 1;
      }
    }

    method Evict() returns (key: Bytes)
      requires Valid()
      modifies this
      ensures Valid() && clock == old(clock) + 1
      ensures ops == old(ops) + [DoEvict(key)] && (old(Recorded()) ==> Recorded())
      ensures old(Abs()) == map[] ==> key == [] && Abs() == map[]
      ensures old(Abs()) != map[] ==> IsVictim(old(Abs()), key) && Abs() == old(Abs()) - {key}
    {
      hide Replay, SumMap;
      hide Filed, Owned, AllNewest, IsVictim, DistinctTimes;
      assert entries != map[] ==> Abs() != map[] by {
        if entries != map[] { var k :| k in entries; assert k in Abs(); }
      }
      if entries != map[] {
        Search();
        key := PopBack();
      } else {
        key := [];
      }
      ReplaySnoc(ops, DoEvict(key));
      Record(DoEvict(key));
    }

    /** The back of the minimum bucket is its oldest key, and no bucket below holds any. */
    lemma BackIsVictim(key: Bytes)
      requires Valid() && Bucket(buckets, minFreq) != []
      requires key == Bucket(buckets, minFreq)[|Bucket(buckets, minFreq)| - 1].key
      ensures IsVictim(Abs(), key)
      ensures key in entries && entries[key].freq == minFreq
      ensures entries[key].it == Bucket(buckets, minFreq)[|Bucket(buckets, minFreq)| - 1]
    {
      hide Filed, Owned, DistinctTimes;
      var bucket := Bucket(buckets, minFreq);
      assert bucket[|bucket| - 1] in bucket && Newest(bucket, since);
      NodeOwner(entries, buckets, minFreq, bucket[|bucket| - 1]);
      forall k | k in entries && k != key ensures Before(Abs()[key], Abs()[k]) {
        if entries[k].freq == minFreq {
          InBucket(entries, buckets, k);
          var i :| 0 <= i < |bucket| && bucket[i] == entries[k].it;
        }
      }
    }

    static lemma NodeOwner(entries: map<Bytes, Entry>, buckets: Buckets, f: nat, n: Node)
      requires Owned(entries, buckets) && n in Bucket(buckets, f)
      ensures n.key in entries && entries[n.key].it == n && entries[n.key].freq == f
    {
    }

    /** `bucket.pop_back()`, and the entry goes with it. */
    method PopBack() returns (key: Bytes)
      requires Valid() && Bucket(buckets, minFreq) != []
      modifies this`entries, this`buckets, this`minFreq, this`memoryUsed, this`since
      ensures Valid() && IsVictim(old(Abs()), key) && Abs() == old(Abs()) - {key}
    {
      hide Filed, Owned, AllNewest, IsVictim, SumMap, Position, Erase, DistinctTimes;
      var bucket := buckets[minFreq];
      key := bucket[|bucket| - 1].key;
      BackIsVictim(key);
      TimesApart(since, key, clock);
      DroppedFiled(entries, buckets, since, key);
      DroppedNewest(entries, buckets, since, key);
      PopIsDrop(buckets, since, minFreq);
      buckets := buckets[minFreq := bucket[..|bucket| - 1]];
      Forget(key);
    }

    static lemma PopIsDrop(buckets: Buckets, since: map<Bytes, nat>, f: nat)
      requires AllNewest(buckets, since) && Bucket(buckets, f) != []
      ensures var b := Bucket(buckets, f); Dropped(buckets, f, b[|b| - 1]) == buckets[f := b[..|b| - 1]]
    {
      var b := Bucket(buckets, f);
      assert Newest(b, since);
      assert Distinct(b);
      PositionIs(b, |b| - 1);
      assert Erase(b, |b| - 1) == b[..|b| - 1];
    }

    method MemoryUsed() returns (bytes: nat)
      requires Valid()
      ensures bytes == SumMap((k: Bytes, x: Stat) => |k| + x.size, Abs())
    {
      hide Filed, Owned, AllNewest, DistinctTimes;
      SumMapSame(Cost, entries, (k: Bytes, x: Stat) => |k| + x.size, Abs());
      return memoryUsed;
    }
  }
}
