/** What every eviction policy keeps for its caller, whatever order it evicts in. */
module PolicyContract {
  import opened ByteStrings
  import opened Sequences
  import opened MapSums
  import Lru = LruOrder
  import Lfu = LfuOrder
  import Sieve = SieveOrder

  /** The policies behind the interface, each by its state. An LFU policy's clock counts its operations. */
  datatype Policy = ByLru(items: seq<Lru.Item>) | ByLfu(table: Lfu.Table, clock: nat) | BySieve(sieve: Sieve.Sieve)

  /** What a caller can tell of a policy: the keys it holds, each with its recorded size. */
  type Holding = map<Bytes, nat>

  function KeyCost(key: Bytes, size: nat): nat { |key| + size }

  function StatCost(key: Bytes, x: Lfu.Stat): nat { |key| + x.size }

  ghost predicate Ok(p: Policy) {
    match p
    case ByLru(items) => Lru.Unique(items)
    case ByLfu(t, clock) =>
      && (forall k :: k in t ==> t[k].since < clock)
      && forall k, l :: k in t && l in t && k != l ==> t[k].since != t[l].since
    case BySieve(s) => s.Valid()
  }

  function Held(items: seq<Lru.Item>): Holding {
    if items == [] then map[] else Held(items[1..])[items[0].key := items[0].size]
  }

  function ItemsOf(slots: seq<Sieve.Slot>): seq<Lru.Item> { Map((x: Sieve.Slot) => Lru.Item(x.key, x.size), slots) }

  function Holds(p: Policy): Holding {
    match p
    case ByLru(items) => Held(items)
    case ByLfu(t, _) => map k | k in t :: t[k].size
    case BySieve(s) => Held(ItemsOf(s.slots))
  }

  // The interface.

  function Touch(p: Policy, key: Bytes): Policy {
    match p
    case ByLru(items) => ByLru(Lru.Touch(items, key))
    case ByLfu(t, clock) => ByLfu(Lfu.Touch(t, key, clock), clock + 1)
    case BySieve(s) => BySieve(Sieve.Touch(s, key))
  }

  function Add(p: Policy, key: Bytes, size: nat): Policy {
    match p
    case ByLru(items) => ByLru(Lru.Add(items, key, size))
    case ByLfu(t, clock) => ByLfu(Lfu.Add(t, key, size, clock), clock + 1)
    case BySieve(s) => BySieve(Sieve.Add(s, key, size))
  }

  function Remove(p: Policy, key: Bytes): Policy {
    match p
    case ByLru(items) => ByLru(Lru.Remove(items, key))
    case ByLfu(t, clock) => ByLfu(t - {key}, clock + 1)
    case BySieve(s) => BySieve(Sieve.Remove(s, key))
  }

  /** Whether evicting from `p` returns `key` and leaves `p'`. */
  ghost predicate Takes(p: Policy, key: Bytes, p': Policy)
    requires Ok(p)
  {
    match p
    case ByLru(items) => items != [] && key == items[|items| - 1].key && p' == ByLru(Lru.Evict(items))
    case ByLfu(t, clock) => Lfu.IsVictim(t, key) && p' == ByLfu(t - {key}, clock + 1)
    case BySieve(s) =>
      s.slots != [] && key == s.slots[Sieve.VictimIndex(s)].key && p' == BySieve(Sieve.Evict(s))
  }

  ghost function MemoryUsed(p: Policy): nat {
    match p
    case ByLru(items) => Lru.TotalCost(items)
    case ByLfu(t, _) => SumMap(StatCost, t)
    case BySieve(s) => Sieve.TotalCost(s.slots)
  }

  // ---------------------------------------------------------------- lists of items

  /** `h` is what `items` hold. */
  ghost predicate Describes(items: seq<Lru.Item>, h: Holding) {
    && (forall x :: x in items ==> x.key in h && h[x.key] == x.size)
    && (forall k :: k in h ==> Lru.Item(k, h[k]) in items)
  }

  lemma {:induction false} HeldDescribes(items: seq<Lru.Item>)
    requires Lru.Unique(items)
    ensures Describes(items, Held(items))
  {
    if items != [] {
      var x, rest := items[0], items[1..];
      assert items == [x] + rest;
      TailUnique(items);
      HeldDescribes(rest);
      var h, h' := Held(rest), Held(items);
      forall y | y in items ensures y.key in h' && h'[y.key] == y.size {
        if y != x { assert y in rest && y.key != x.key; }
      }
      forall k | k in h' ensures Lru.Item(k, h'[k]) in items {
        if k != x.key { assert Lru.Item(k, h[k]) in rest; }
      }
    }
  }

  lemma TailUnique(items: seq<Lru.Item>)
    requires Lru.Unique(items) && items != []
    ensures Lru.Unique(items[1..]) && forall y :: y in items[1..] ==> y.key != items[0].key
  {
    forall y | y in items[1..] ensures y.key != items[0].key {
      var j :| 0 <= j < |items[1..]| && items[1..][j] == y;
      assert items[j + 1] == y;
    }
  }

  lemma HeldIs(items: seq<Lru.Item>, h: Holding)
    requires Lru.Unique(items) && Describes(items, h)
    ensures Held(items) == h
  {
    hide Lru.Unique, Held;
    HeldDescribes(items);
    var g := Held(items);
    forall k | k in g ensures k in h && h[k] == g[k] { assert Lru.Item(k, g[k]) in items; }
    forall k | k in h ensures k in g { assert Lru.Item(k, h[k]) in items; }
  }

  lemma NotHeld(items: seq<Lru.Item>, key: Bytes)
    requires Lru.Unique(items) && forall y :: y in items ==> y.key != key
    ensures key !in Held(items)
  {
    HeldDescribes(items);
    forall k | k in Held(items) ensures k != key { assert Lru.Item(k, Held(items)[k]) in items; }
  }

  lemma {:induction false} HeldCost(items: seq<Lru.Item>)
    requires Lru.Unique(items)
    ensures Lru.TotalCost(items) == SumMap(KeyCost, Held(items))
  {
    if items != [] {
      var x, rest := items[0], items[1..];
      TailUnique(items);
      HeldCost(rest);
      NotHeld(rest, x.key);
      SumMapInsert(KeyCost, Held(rest), x.key, x.size);
    }
  }

  lemma EmptyHeld(items: seq<Lru.Item>)
    ensures Held(items) == map[] <==> items == []
  {
    if items != [] { assert items[0].key in Held(items); }
  }

  // ---------------------------------------------------------------- SIEVE's slots

  lemma ItemsUnique(slots: seq<Sieve.Slot>)
    requires Sieve.DistinctKeys(slots)
    ensures Lru.Unique(ItemsOf(slots))
  {
    var items := ItemsOf(slots);
    forall i, j | 0 <= i < j < |items| ensures items[i].key != items[j].key {
      assert slots[i].key != slots[j].key;
    }
  }

  lemma {:induction false} ItemsCost(slots: seq<Sieve.Slot>)
    ensures Sieve.TotalCost(slots) == Lru.TotalCost(ItemsOf(slots))
  {
    if slots != [] {
      assert ItemsOf(slots)[1..] == ItemsOf(slots[1..]);
      ItemsCost(slots[1..]);
    }
  }

  lemma SlotSet(s: Sieve.Sieve, i: nat, size: nat)
    requires s.Valid() && i < |s.slots|
    ensures var slots' := s.slots[i := s.slots[i].(size := size)];
            Sieve.DistinctKeys(slots') &&
            Held(ItemsOf(slots')) == Held(ItemsOf(s.slots))[s.slots[i].key := size]
  {
    var x, slots' := s.slots[i], s.slots[i := s.slots[i].(size := size)];
    var items, items' := ItemsOf(s.slots), ItemsOf(slots');
    ItemsUnique(s.slots);
    ItemsUnique(slots');
    HeldDescribes(items);
    var h := Held(items)[x.key := size];
    forall y | y in items' ensures y.key in h && h[y.key] == y.size {
      var j :| 0 <= j < |items'| && items'[j] == y;
      if j != i { assert items[j] == y && s.slots[j].key != x.key; }
    }
    forall k | k in h ensures Lru.Item(k, h[k]) in items' {
      if k == x.key {
        assert items'[i] == Lru.Item(k, size);
      } else {
        var j :| 0 <= j < |items| && items[j] == Lru.Item(k, h[k]);
        assert items'[j] == items[j];
      }
    }
    HeldIs(items', h);
  }

  lemma SlotErased(s: Sieve.Sieve, i: nat)
    requires s.Valid() && i < |s.slots|
    ensures Sieve.DistinctKeys(Erase(s.slots, i))
    ensures Held(ItemsOf(Erase(s.slots, i))) == Held(ItemsOf(s.slots)) - {s.slots[i].key}
  {
    var items := ItemsOf(s.slots);
    var slots' := Erase(s.slots, i);
    assert forall j :: 0 <= j < |slots'| ==> slots'[j] == s.slots[if j < i then j else j + 1];
    assert ItemsOf(slots') == Erase(items, i);
    ItemsUnique(s.slots);
    ErasedHeld(items, i);
  }

  lemma ErasedHeld(items: seq<Lru.Item>, i: nat)
    requires Lru.Unique(items) && i < |items|
    ensures Lru.Unique(Erase(items, i)) && Held(Erase(items, i)) == Held(items) - {items[i].key}
  {
    hide Held, Erase, Distinct;
    EraseMembers(items, i);
    EraseDistinct(items, i);
    HeldDescribes(items);
    var x, rest := items[i], Erase(items, i);
    var h := Held(items) - {x.key};
    assert x in items;
    forall y | y in rest ensures y.key in h && h[y.key] == y.size { assert y in items && y != x; }
    forall k | k in h ensures Lru.Item(k, h[k]) in rest { assert Lru.Item(k, h[k]) in items; }
    HeldIs(rest, h);
  }

  // ---------------------------------------------------------------- the contract, policy by policy

  lemma LruTouch(items: seq<Lru.Item>, key: Bytes)
    requires Lru.Unique(items)
    ensures Lru.Unique(Lru.Touch(items, key)) && Held(Lru.Touch(items, key)) == Held(items)
  {
    Lru.TouchEffect(items, key);
    HeldDescribes(items);
    hide Lru.Touch, Lru.Unique, Held;
    HeldIs(Lru.Touch(items, key), Held(items));
  }

  lemma LruAdd(items: seq<Lru.Item>, key: Bytes, size: nat)
    requires Lru.Unique(items)
    ensures Lru.Unique(Lru.Add(items, key, size)) && Held(Lru.Add(items, key, size)) == Held(items)[key := size]
  {
    Lru.AddEffect(items, key, size);
    HeldDescribes(items);
    hide Lru.Add, Lru.Unique, Held;
    HeldIs(Lru.Add(items, key, size), Held(items)[key := size]);
  }

  lemma LruRemove(items: seq<Lru.Item>, key: Bytes)
    requires Lru.Unique(items)
    ensures Lru.Unique(Lru.Remove(items, key)) && Held(Lru.Remove(items, key)) == Held(items) - {key}
  {
    Lru.RemoveEffect(items, key);
    HeldDescribes(items);
    hide Lru.Remove, Lru.Unique, Held;
    HeldIs(Lru.Remove(items, key), Held(items) - {key});
  }

  lemma SieveAdd(s: Sieve.Sieve, key: Bytes, size: nat)
    requires s.Valid()
    ensures Sieve.Add(s, key, size).Valid()
    ensures Held(ItemsOf(Sieve.Add(s, key, size).slots)) == Held(ItemsOf(s.slots))[key := size]
  {
    var i := Sieve.Find(s.slots, key);
    if i < |s.slots| {
      SlotSet(s, i, size);
    } else {
      var slots' := [Sieve.Slot(key, size, false)] + s.slots;
      assert ItemsOf(slots')[1..] == ItemsOf(s.slots);
      assert forall j :: 0 < j < |slots'| ==> slots'[j] == s.slots[j - 1];
    }
  }

  lemma SieveRemove(s: Sieve.Sieve, key: Bytes)
    requires s.Valid()
    ensures Sieve.Remove(s, key).Valid()
    ensures Held(ItemsOf(Sieve.Remove(s, key).slots)) == Held(ItemsOf(s.slots)) - {key}
  {
    var i := Sieve.Find(s.slots, key);
    if i < |s.slots| {
      SlotErased(s, i);
    } else {
      ItemsUnique(s.slots);
      NotHeld(ItemsOf(s.slots), key);
    }
  }

  lemma SieveEvict(s: Sieve.Sieve)
    requires s.Valid() && s.slots != []
    ensures Sieve.Evict(s).Valid()
    ensures var key := s.slots[Sieve.VictimIndex(s)].key;
            && key in Held(ItemsOf(s.slots))
            && Held(ItemsOf(Sieve.Evict(s).slots)) == Held(ItemsOf(s.slots)) - {key}
  {
    var v := Sieve.VictimIndex(s);
    var cleared := Sieve.Clear(s.slots, Sieve.Unvisited(s.slots, s.Start()), s.Start());
    assert forall i :: 0 <= i < |cleared| ==> cleared[i].key == s.slots[i].key && cleared[i].size == s.slots[i].size;
    assert ItemsOf(cleared) == ItemsOf(s.slots);
    hide Sieve.Clear, Sieve.Unvisited, Sieve.VictimIndex;
    SlotErased(Sieve.Sieve(cleared, -1), v);
    ItemsUnique(s.slots);
    HeldDescribes(ItemsOf(s.slots));
    assert ItemsOf(s.slots)[v] in ItemsOf(s.slots);
  }

  lemma SieveTouch(s: Sieve.Sieve, key: Bytes)
    requires s.Valid()
    ensures Sieve.Touch(s, key).Valid() && ItemsOf(Sieve.Touch(s, key).slots) == ItemsOf(s.slots)
  {
  }

  // ---------------------------------------------------------------- the contract

  /** A touch changes nothing a caller can tell. */
  lemma TouchContract(p: Policy, key: Bytes)
    requires Ok(p)
    ensures Ok(Touch(p, key)) && Holds(Touch(p, key)) == Holds(p)
  {
    hide Lru.Unique, Lru.Touch, Sieve.Touch, Held;
    match p
    case ByLru(items) => LruTouch(items, key);
    case ByLfu(_, _) =>
    case BySieve(s) => SieveTouch(s, key);
  }

  lemma AddContract(p: Policy, key: Bytes, size: nat)
    requires Ok(p)
    ensures Ok(Add(p, key, size)) && Holds(Add(p, key, size)) == Holds(p)[key := size]
  {
    hide Lru.Unique, Lru.Add, Sieve.Add, Held;
    match p
    case ByLru(items) => LruAdd(items, key, size);
    case ByLfu(_, _) =>
    case BySieve(s) => SieveAdd(s, key, size);
  }

  lemma RemoveContract(p: Policy, key: Bytes)
    requires Ok(p)
    ensures Ok(Remove(p, key)) && Holds(Remove(p, key)) == Holds(p) - {key}
  {
    hide Lru.Unique, Lru.Remove, Sieve.Remove, Held;
    match p
    case ByLru(items) => LruRemove(items, key);
    case ByLfu(_, _) =>
    case BySieve(s) => SieveRemove(s, key);
  }

  /** An eviction drops exactly the key it returns, which the policy held. */
  lemma EvictContract(p: Policy, key: Bytes, p': Policy)
    requires Ok(p) && Takes(p, key, p')
    ensures key in Holds(p) && Ok(p') && Holds(p') == Holds(p) - {key}
  {
    match p
    case ByLru(items) =>
      var n := |items| - 1;
      ErasedHeld(items, n);
      HeldDescribes(items);
      assert items[n] in items && Erase(items, n) == Lru.Evict(items);
    case ByLfu(_, _) =>
    case BySieve(s) =>
      hide Sieve.Evict, Sieve.VictimIndex, Held;
      SieveEvict(s);
  }

  /** A policy that holds anything has a victim, and only one. */
  lemma EvictDecided(p: Policy)
    requires Ok(p) && Holds(p) != map[]
    ensures exists key: Bytes, p': Policy :: Takes(p, key, p')
    ensures forall key, key', p', p'' :: Takes(p, key, p') && Takes(p, key', p'') ==> key == key' && p' == p''
  {
    match p
    case ByLru(items) =>
      EmptyHeld(items);
      assert Takes(p, items[|items| - 1].key, ByLru(Lru.Evict(items)));
    case ByLfu(t, clock) =>
      assert t.Keys == Holds(p).Keys;
      var key := LeastRank(t);
      assert Takes(p, key, ByLfu(t - {key}, clock + 1));
    case BySieve(s) =>
      hide Sieve.Evict, Sieve.VictimIndex, Held;
      EmptyHeld(ItemsOf(s.slots));
      assert Takes(p, s.slots[Sieve.VictimIndex(s)].key, BySieve(Sieve.Evict(s)));
  }

  lemma {:induction false} LeastRank(t: Lfu.Table) returns (key: Bytes)
    requires t != map[] && forall k, l :: k in t && l in t && k != l ==> t[k].since != t[l].since
    ensures Lfu.IsVictim(t, key)
    decreases |t|
  {
    var k :| k in t;
    var rest := t - {k};
    if rest == map[] {
      assert forall l :: l in t && l != k ==> l in rest;
      return k;
    }
    var least := LeastRank(rest);
    key := if Lfu.Before(t[k], t[least]) then k else least;
    forall l | l in t && l != key ensures Lfu.Before(t[key], t[l]) {
      if l != k { assert l in rest; }
    }
  }

  /** The memory a policy reports is the cost of what it holds. */
  lemma MemoryContract(p: Policy)
    requires Ok(p)
    ensures MemoryUsed(p) == SumMap(KeyCost, Holds(p))
  {
    match p
    case ByLru(items) => HeldCost(items);
    case ByLfu(t, _) => SumMapSame(StatCost, t, KeyCost, Holds(p));
    case BySieve(s) =>
      ItemsUnique(s.slots);
      ItemsCost(s.slots);
      HeldCost(ItemsOf(s.slots));
  }
}

/** The classes behind the interface: a call through it does what the contract's functions say. */
module PolicyObjects {
  import opened ByteStrings
  import opened MapSums
  import LruPolicy
  import LfuPolicy
  import SievePolicy
  import P = PolicyContract
  import Lru = LruOrder
  import Lfu = LfuOrder
  import Sieve = SieveOrder

  /** A policy object, by its class. */
  datatype Object =
    | LruObject(lru: LruPolicy.LRU)
    | LfuObject(lfu: LfuPolicy.LFU)
    | SieveObject(sieve: SievePolicy.SIEVE)

  function Self(o: Object): object {
    match o
    case LruObject(l) => l
    case LfuObject(l) => l
    case SieveObject(s) => s
  }

  ghost function Repr(o: Object): set<object>
    reads Self(o)
  {
    match o
    case LruObject(l) => l.Repr()
    case LfuObject(l) => {l}
    case SieveObject(s) => s.Repr()
  }

  ghost predicate Valid(o: Object)
    reads Self(o), Repr(o)
  {
    match o
    case LruObject(l) => l.Valid()
    case LfuObject(l) => l.Valid()
    case SieveObject(s) => s.Valid()
  }

  /** What the contract sees of an object. */
  ghost function View(o: Object): P.Policy
    requires Valid(o)
    reads Self(o), Repr(o)
  {
    match o
    case LruObject(l) => P.ByLru(l.Items())
    case LfuObject(l) => P.ByLfu(l.Abs(), l.clock)
    case SieveObject(s) => P.BySieve(s.Abs())
  }

  lemma LruIsOk(l: LruPolicy.LRU)
    requires l.Valid()
    ensures Lru.Unique(l.Items())
  {
    var s := l.Items();
    forall i, j | 0 <= i < |s| && 0 <= j < |s| && s[i].key == s[j].key ensures i == j {
      assert l.list[i] in l.list && l.list[j] in l.list;
    }
  }

  /** Every object in order satisfies what the contract assumes. */
  lemma ValidIsOk(o: Object)
    requires Valid(o)
    ensures P.Ok(View(o))
  {
    match o
    case LruObject(l) => LruIsOk(l);
    case LfuObject(l) =>
    case SieveObject(s) => s.AbsValid();
  }

  method Touch(o: Object, key: Bytes)
    requires Valid(o)
    modifies Repr(o)
    ensures Valid(o) && View(o) == P.Touch(old(View(o)), key) && fresh(Repr(o) - old(Repr(o)))
  {
    match o
    case LruObject(l) => l.Touch(key);
    case LfuObject(l) => l.Touch(key);
    case SieveObject(s) => s.Touch(key);
  }

  method Add(o: Object, key: Bytes, size: nat)
    requires Valid(o)
    modifies Repr(o)
    ensures Valid(o) && View(o) == P.Add(old(View(o)), key, size) && fresh(Repr(o) - old(Repr(o)))
  {
    match o
    case LruObject(l) => l.Add(key, size);
    case LfuObject(l) => l.Add(key, size);
    case SieveObject(s) => s.Add(key, size);
  }

  method Remove(o: Object, key: Bytes)
    requires Valid(o)
    modifies Repr(o)
    ensures Valid(o) && View(o) == P.Remove(old(View(o)), key) && fresh(Repr(o) - old(Repr(o)))
  {
    match o
    case LruObject(l) => l.Remove(key);
    case LfuObject(l) => l.Remove(key);
    case SieveObject(s) => s.Remove(key);
  }

  /** Takes the victim, if the policy holds anything; otherwise returns the empty string. */
  method Evict(o: Object) returns (key: Bytes)
    requires Valid(o)
    modifies Repr(o)
    ensures Valid(o) && old(P.Ok(View(o))) && fresh(Repr(o) - old(Repr(o)))
    ensures Took(old(View(o)), key, View(o))
  {
    hide P.Ok, P.Holds, P.Takes, LruPolicy.LRU.Valid, LfuPolicy.LFU.Valid, SievePolicy.SIEVE.Valid;
    ValidIsOk(o);
    ghost var before := View(o);
    match o
    case LruObject(l) => key := l.Evict(); ValidIsOk(o); TookLru(before, key, View(o));
    case LfuObject(l) => key := l.Evict(); ValidIsOk(o); TookLfu(before, key, View(o));
    case SieveObject(s) => key := s.Evict(); ValidIsOk(o); TookSieve(before, key, View(o));
  }

  /** What the contract says of an eviction from `p` that returned `key` and left `p'`. */
  ghost predicate Took(p: P.Policy, key: Bytes, p': P.Policy)
    requires P.Ok(p)
  {
    if P.Holds(p) == map[] then key == [] && P.Holds(p') == map[] else P.Takes(p, key, p')
  }

  lemma TookLru(p: P.Policy, key: Bytes, p': P.Policy)
    requires P.Ok(p) && p.ByLru? && p' == P.ByLru(Lru.Evict(p.items))
    requires key == if p.items == [] then [] else p.items[|p.items| - 1].key
    ensures Took(p, key, p')
  {
    P.EmptyHeld(p.items);
  }

  lemma TookLfu(p: P.Policy, key: Bytes, p': P.Policy)
    requires P.Ok(p) && p.ByLfu? && p'.ByLfu? && p'.clock == p.clock + 1
    requires p.table == map[] ==> key == [] && p'.table == map[]
    requires p.table != map[] ==> Lfu.IsVictim(p.table, key) && p'.table == p.table - {key}
    ensures Took(p, key, p')
  {
    assert p.table.Keys == P.Holds(p).Keys;
  }

  lemma TookSieve(p: P.Policy, key: Bytes, p': P.Policy)
    requires P.Ok(p) && p.BySieve? && p' == P.BySieve(Sieve.Evict(p.sieve))
    requires key == if p.sieve.slots == [] then [] else p.sieve.slots[Sieve.VictimIndex(p.sieve)].key
    ensures Took(p, key, p')
  {
    P.EmptyHeld(P.ItemsOf(p.sieve.slots));
  }

  /** The counter an object reports is the cost of what it holds. */
  method MemoryUsed(o: Object) returns (bytes: nat)
    requires Valid(o)
    ensures bytes == SumMap(P.KeyCost, P.Holds(View(o)))
  {
    ValidIsOk(o);
    P.MemoryContract(View(o));
    match o
    case LruObject(l) => bytes := l.MemoryUsed();
    case LfuObject(l) =>
      bytes := l.MemoryUsed();
      SumMapSame((k: Bytes, x: Lfu.Stat) => |k| + x.size, l.Abs(), P.StatCost, l.Abs());
    case SieveObject(s) => bytes := s.MemoryUsed();
  }
}

/** Storage over any policy: what its operations keep, from the policies' contract alone. */
module AnyPolicyStorage {
  import opened ByteStrings
  import opened MapSums
  import opened Deadlines
  import opened CacheModel
  import opened PolicyContract
  import Lru = LruOrder

  /** A table with its policy; deadlines and the other counters play no part here. */
  datatype Shelf = Shelf(data: map<Bytes, Meta>, policy: Policy, buckets: nat, valueBytes: int)

  function Sizes(data: map<Bytes, Meta>): Holding { map k | k in data :: data[k].size }

  /** The table and the policy hold the same keys with the same sizes, and payloads are counted exactly. */
  ghost predicate Together(c: Shelf) {
    Ok(c.policy) && Holds(c.policy) == Sizes(c.data) && c.valueBytes == SumMap(Payload, c.data)
  }

  ghost function UsedBy(c: Shelf): nat { MemoryUsed(c.policy) + c.buckets * POINTER_SIZE }

  ghost predicate Affordable(c: Shelf, limit: nat) { c.data == map[] || UsedBy(c) <= limit }

  function Shelve(c: Shelf, p: Put): Shelf {
    var payload := if p.key in c.data then |c.data[p.key].value| else 0;
    Shelf(c.data[p.key := Meta(p.value, p.Accounted())], Add(c.policy, p.key, p.Accounted()),
          if p.key in c.data then c.buckets else p.buckets, c.valueBytes - payload + |p.value|)
  }

  /** What DEL, the sweeper's callback and a GET of an expired key do to a stored key. */
  function Unshelve(c: Shelf, key: Bytes, policy: Policy): Shelf
    requires key in c.data
  {
    Shelf(c.data - {key}, policy, c.buckets, c.valueBytes - |c.data[key].value|)
  }

  /**
   The eviction loop takes `victims`, in that order, and leaves `r`. A victim the table does not hold ends the loop
   with the policy changed and the table as it was.
   */
  ghost predicate EvictsTo(c: Shelf, limit: nat, victims: seq<Bytes>, r: Shelf)
    requires Ok(c.policy)
    decreases |victims|
  {
    if Affordable(c, limit) then victims == [] && r == c
    else victims != [] && exists p: Policy :: Takes(c.policy, victims[0], p) && Turn(c, limit, victims, p, r)
  }

  ghost predicate Turn(c: Shelf, limit: nat, victims: seq<Bytes>, p: Policy, r: Shelf)
    requires victims != []
    decreases |victims|, 0
  {
    if victims[0] !in c.data then victims[1..] == [] && r == c.(policy := p)
    else Ok(p) && EvictsTo(Unshelve(c, victims[0], p), limit, victims[1..], r)
  }

  datatype Op = Store(put: Put) | Hit(key: Bytes) | Drop(key: Bytes)

  ghost predicate Does(limits: Limits, c: Shelf, op: Op, r: Shelf)
    requires Ok(c.policy)
  {
    match op
    case Store(p) =>
      && p.Valid(c.buckets) && CanStore(limits, p.key, p.value, p.capacity) && Ok(Shelve(c, p).policy)
      && exists victims: seq<Bytes> :: EvictsTo(Shelve(c, p), limits.memory, victims, r)
    case Hit(key) => key in c.data && r == c.(policy := Touch(c.policy, key))
    case Drop(key) => key in c.data && r == Unshelve(c, key, Remove(c.policy, key))
  }

  /** The operations, one after the other, can lead from `c` to `r`. */
  ghost predicate Leads(limits: Limits, c: Shelf, ops: seq<Op>, r: Shelf) {
    if ops == [] then r == c
    else exists m: Shelf :: Leads(limits, c, ops[..|ops| - 1], m) && Ok(m.policy) && Does(limits, m, ops[|ops| - 1], r)
  }

  // ---------------------------------------------------------------- one step

  lemma ShelveKeeps(c: Shelf, p: Put)
    requires Together(c)
    ensures Together(Shelve(c, p))
  {
    hide Ok, Holds, Add;
    var m := Meta(p.value, p.Accounted());
    AddContract(c.policy, p.key, p.Accounted());
    assert Sizes(c.data[p.key := m]) == Sizes(c.data)[p.key := p.Accounted()];
    if p.key in c.data {
      SumMapRemove(Payload, c.data, p.key);
      SumMapAdd(Payload, c.data, p.key, m);
    } else {
      SumMapInsert(Payload, c.data, p.key, m);
    }
  }

  /** A key leaves table and policy together, and neither counter is taken below zero. */
  lemma UnshelveKeeps(c: Shelf, key: Bytes, p: Policy)
    requires Together(c) && key in c.data && Ok(p) && Holds(p) == Holds(c.policy) - {key}
    ensures Together(Unshelve(c, key, p)) && |c.data[key].value| <= c.valueBytes
    ensures MemoryUsed(c.policy) == |key| + c.data[key].size + MemoryUsed(p)
  {
    hide Ok, Holds, MemoryUsed;
    assert Sizes(c.data - {key}) == Sizes(c.data) - {key};
    SumMapRemove(Payload, c.data, key);
    MemoryContract(c.policy);
    MemoryContract(p);
    SumMapRemove(KeyCost, Holds(c.policy), key);
  }

  lemma HitKeeps(c: Shelf, key: Bytes)
    requires Together(c)
    ensures Together(c.(policy := Touch(c.policy, key))) && MemoryUsed(Touch(c.policy, key)) == MemoryUsed(c.policy)
  {
    hide Ok, Holds, Touch, MemoryUsed;
    TouchContract(c.policy, key);
    MemoryContract(c.policy);
    MemoryContract(Touch(c.policy, key));
  }

  // ---------------------------------------------------------------- the eviction loop

  /**
   However the policy chooses, the loop meets the budget with one removal a turn, and never meets a victim that the
   table does not hold, be its key even the empty string.
   */
  lemma {:induction false} LoopKeeps(c: Shelf, limit: nat, victims: seq<Bytes>, r: Shelf)
    requires Together(c) && EvictsTo(c, limit, victims, r)
    ensures Together(r) && Affordable(r, limit) && r.buckets == c.buckets
    ensures |r.data| + |victims| == |c.data|
    ensures Taken(victims) <= c.data.Keys && r.data == c.data - Taken(victims)
    decreases |victims|
  {
    hide Takes, Ok, Holds, Affordable, MemoryUsed, Taken;
    if victims == [] {
      NoVictims(c.data);
    } else {
      var v := victims[0];
      var p: Policy :| Takes(c.policy, v, p) && Turn(c, limit, victims, p, r);
      EvictContract(c.policy, v, p);
      assert v in Sizes(c.data);
      UnshelveKeeps(c, v, p);
      LoopKeeps(Unshelve(c, v, p), limit, victims[1..], r);
      OneMoreVictim(c.data, victims);
    }
  }

  function Taken(victims: seq<Bytes>): set<Bytes> { set k | k in victims }

  lemma NoVictims<V>(data: map<Bytes, V>)
    ensures Taken([]) == {} && data - Taken([]) == data
  {
  }

  lemma OneMoreVictim<V>(data: map<Bytes, V>, victims: seq<Bytes>)
    requires victims != [] && victims[0] in data
    ensures |data - {victims[0]}| == |data| - 1 && (data - {victims[0]}).Keys == data.Keys - {victims[0]}
    ensures Taken(victims) == {victims[0]} + Taken(victims[1..])
    ensures data - Taken(victims) == data - {victims[0]} - Taken(victims[1..])
  {
    assert (data - {victims[0]}).Keys == data.Keys - {victims[0]};
    assert victims == [victims[0]] + victims[1..];
  }

  /** The policy's state alone decides the victims and the outcome. */
  lemma {:induction false} LoopDecided(c: Shelf, limit: nat, victims: seq<Bytes>, r: Shelf,
                                       victims': seq<Bytes>, r': Shelf)
    requires Together(c) && EvictsTo(c, limit, victims, r) && EvictsTo(c, limit, victims', r')
    ensures victims == victims' && r == r'
    decreases |victims|
  {
    hide Takes, Ok, Holds, Affordable, MemoryUsed, Unshelve;
    if !Affordable(c, limit) {
      var v, v' := victims[0], victims'[0];
      var p: Policy :| Takes(c.policy, v, p) && Turn(c, limit, victims, p, r);
      var p': Policy :| Takes(c.policy, v', p') && Turn(c, limit, victims', p', r');
      EvictContract(c.policy, v, p);
      assert v in Sizes(c.data);
      EvictDecided(c.policy);
      assert v == v' && p == p';
      UnshelveKeeps(c, v, p);
      LoopDecided(Unshelve(c, v, p), limit, victims[1..], r, victims'[1..], r');
      assert victims == [v] + victims[1..] && victims' == [v] + victims'[1..];
    }
  }

  /** The loop always ends: some sequence of victims takes it to its exit. */
  lemma {:induction false} LoopEnds(c: Shelf, limit: nat) returns (victims: seq<Bytes>, r: Shelf)
    requires Together(c)
    ensures EvictsTo(c, limit, victims, r)
    decreases |c.data|
  {
    hide Takes, Ok, Holds, MemoryUsed;
    if Affordable(c, limit) {
      return [], c;
    }
    assert Holds(c.policy) != map[] by { KeysOfSizes(c.data); }
    EvictDecided(c.policy);
    var v: Bytes, p: Policy :| Takes(c.policy, v, p);
    EvictContract(c.policy, v, p);
    assert v in Sizes(c.data);
    UnshelveKeeps(c, v, p);
    assert |c.data - {v}| == |c.data| - 1 by { assert (c.data - {v}).Keys == c.data.Keys - {v}; }
    var rest;
    rest, r := LoopEnds(Unshelve(c, v, p), limit);
    victims := [v] + rest;
    assert victims[1..] == rest;
    assert Turn(c, limit, victims, p, r);
  }

  lemma KeysOfSizes(data: map<Bytes, Meta>)
    requires data != map[]
    ensures Sizes(data) != map[]
  {
    var k :| k in data;
    assert k in Sizes(data);
  }

  // ---------------------------------------------------------------- whole runs

  lemma StepKeeps(limits: Limits, c: Shelf, op: Op, r: Shelf)
    requires Together(c) && Affordable(c, limits.memory) && Does(limits, c, op, r)
    ensures Together(r) && Affordable(r, limits.memory)
  {
    hide Ok, Holds, Add, Remove, Touch, MemoryUsed, EvictsTo, Shelve;
    match op
    case Store(p) =>
      var victims: seq<Bytes> :| EvictsTo(Shelve(c, p), limits.memory, victims, r);
      ShelveKeeps(c, p);
      LoopKeeps(Shelve(c, p), limits.memory, victims, r);
    case Hit(key) => HitKeeps(c, key);
    case Drop(key) =>
      RemoveContract(c.policy, key);
      UnshelveKeeps(c, key, Remove(c.policy, key));
  }

  /**
   Over any run, and whatever the policy: the table and the policy agree, the memory used is the cost of what is
   stored with the bucket array, and the cache is empty or within its limit.
   */
  lemma {:induction false} AnyPolicyAnyRun(limits: Limits, c: Shelf, ops: seq<Op>, r: Shelf)
    requires Together(c) && Affordable(c, limits.memory) && Leads(limits, c, ops, r)
    ensures Together(r) && Affordable(r, limits.memory)
    ensures UsedBy(r) == SumMap(Charge, r.data) + r.buckets * POINTER_SIZE
    decreases |ops|
  {
    if ops != [] {
      hide Together, Affordable, Does;
      var n := |ops| - 1;
      var m: Shelf :| Leads(limits, c, ops[..n], m) && Ok(m.policy) && Does(limits, m, ops[n], r);
      AnyPolicyAnyRun(limits, c, ops[..n], m);
      StepKeeps(limits, m, ops[n], r);
    }
    UsedIsStored(r);
  }

  // ---------------------------------------------------------------- the cache over LRU is an instance

  function ShelfOf(c: Cache): Shelf { Shelf(c.data, ByLru(c.order), c.buckets, c.valueBytes) }

  lemma CacheTogether(c: Cache)
    requires Consistent(c)
    ensures Together(ShelfOf(c))
  {
    HeldIs(c.order, Sizes(c.data));
  }

  lemma {:induction false} CacheLoop(c: Cache, limit: nat) returns (victims: seq<Bytes>)
    requires Consistent(c)
    ensures EvictsTo(ShelfOf(c), limit, victims, ShelfOf(EvictLoop(c, limit)))
    decreases |c.order|
  {
    hide Consistent, Ok;
    CacheTogether(c);
    EmptyTogether(c);
    if c.order == [] || Used(c) <= limit {
      return [];
    }
    EvictConsistent(c);
    Shorter(c);
    CacheTogether(EvictOne(c));
    var rest := CacheLoop(EvictOne(c), limit);
    victims := [Victim(c)] + rest;
    assert victims[1..] == rest;
    assert Takes(ByLru(c.order), Victim(c), ByLru(Lru.Evict(c.order)));
    assert Turn(ShelfOf(c), limit, victims, ByLru(Lru.Evict(c.order)), ShelfOf(EvictLoop(c, limit)));
  }

  lemma SetIsStore(limits: Limits, c: Cache, p: Put, now: nat)
    requires Consistent(c) && p.Valid(c.buckets) && CanStore(limits, p.key, p.value, p.capacity)
    ensures Ok(ByLru(c.order)) && Does(limits, ShelfOf(c), Store(p), ShelfOf(Set(c, limits, p, now)))
  {
    hide Consistent, Ok, EvictLoop, EvictsTo, Lru.Add;
    CacheTogether(c);
    StoreConsistent(c, p);
    ScheduleConsistent(CacheModel.Store(c, p), p.key, p.ttl, now);
    var s := NotePeak(Schedule(CacheModel.Store(c, p), p.key, p.ttl, now));
    assert ShelfOf(s) == Shelve(ShelfOf(c), p);
    CacheTogether(s);
    var victims := CacheLoop(s, limits.memory);
  }

  lemma GetIsHitOrDrop(limits: Limits, c: Cache, key: Bytes, now: nat)
    requires Consistent(c)
    ensures Ok(ByLru(c.order))
    ensures var c' := Get(c, key, now).0;
            if key !in c.data then ShelfOf(c') == ShelfOf(c)
            else Does(limits, ShelfOf(c), if Expired(c.expiries, key, now) then Drop(key) else Hit(key), ShelfOf(c'))
  {
    hide Consistent, Ok, Lru.Touch, Lru.Remove;
    CacheTogether(c);
  }

  lemma DelIsDrop(limits: Limits, c: Cache, key: Bytes)
    requires Consistent(c)
    ensures Ok(ByLru(c.order))
    ensures var c' := Del(c, key).0;
            if key !in c.data then ShelfOf(c') == ShelfOf(c) else Does(limits, ShelfOf(c), Drop(key), ShelfOf(c'))
  {
    hide Consistent, Ok, Lru.Remove;
    CacheTogether(c);
  }

  lemma ExpireIsDrop(limits: Limits, c: Cache, key: Bytes)
    requires Consistent(c)
    ensures Ok(ByLru(c.order))
    ensures var c' := ExpireKey(c, key);
            if key !in c.data then ShelfOf(c') == ShelfOf(c) else Does(limits, ShelfOf(c), Drop(key), ShelfOf(c'))
  {
    hide Consistent, Ok, Lru.Remove;
    CacheTogether(c);
  }

  lemma UsedIsStored(c: Shelf)
    requires Together(c)
    ensures UsedBy(c) == SumMap(Charge, c.data) + c.buckets * POINTER_SIZE
  {
    hide Ok, Holds, MemoryUsed;
    MemoryContract(c.policy);
    SumMapSame(KeyCost, Sizes(c.data), Charge, c.data);
  }
}
