/** Least-recently-used order as a list of items, most recent first, and as a property of a history. */
module LruOrder {
  import opened ByteStrings
  import opened Sequences

  datatype Item = Item(key: Bytes, size: nat)

  function Cost(x: Item): nat { |x.key| + x.size }

  function TotalCost(s: seq<Item>): nat { Sum(Cost, s) }

  function Keys(s: seq<Item>): seq<Bytes> { Map((x: Item) => x.key, s) }

  function Find(s: seq<Item>, key: Bytes): (i: nat)
    ensures i <= |s|
    ensures i < |s| ==> s[i].key == key
  {
    Position(Keys(s), key)
  }

  lemma FrontCost(x: Item, s: seq<Item>)
    ensures TotalCost([x] + s) == Cost(x) + TotalCost(s)
  {
    assert ([x] + s)[1..] == s;
  }

  function Touch(s: seq<Item>, key: Bytes): seq<Item> {
    var i := Find(s, key);
    if i < |s| then [s[i]] + Erase(s, i) else s
  }

  function Add(s: seq<Item>, key: Bytes, size: nat): seq<Item> { [Item(key, size)] + Erase(s, Find(s, key)) }

  function Remove(s: seq<Item>, key: Bytes): seq<Item> { Erase(s, Find(s, key)) }

  function Evict(s: seq<Item>): seq<Item> { if s == [] then s else s[..|s| - 1] }

  /** Every key occurs once. */
  ghost predicate Unique(s: seq<Item>) {
    Distinct(s) && forall x, y :: x in s && y in s && x.key == y.key ==> x == y
  }

  lemma FindAbsent(s: seq<Item>, key: Bytes)
    requires Find(s, key) == |s|
    ensures forall x :: x in s ==> x.key != key
  {
    assert forall j :: 0 <= j < |s| ==> Keys(s)[j] == s[j].key;
  }

  /** What is left without `key`: everything else, and nothing of its own. */
  lemma RemoveEffect(s: seq<Item>, key: Bytes)
    requires Unique(s)
    ensures Unique(Remove(s, key)) && forall x :: x in Remove(s, key) <==> x in s && x.key != key
  {
    var i := Find(s, key);
    if i < |s| {
      EraseMembers(s, i);
      EraseDistinct(s, i);
    } else {
      FindAbsent(s, key);
    }
  }

  lemma AddEffect(s: seq<Item>, key: Bytes, size: nat)
    requires Unique(s)
    ensures Unique(Add(s, key, size))
    ensures forall x :: x in Add(s, key, size) <==> x == Item(key, size) || (x in s && x.key != key)
  {
    RemoveEffect(s, key);
    FrontUnique(Item(key, size), Remove(s, key));
  }

  lemma FrontUnique(x: Item, s: seq<Item>)
    requires Unique(s) && forall y :: y in s ==> y.key != x.key
    ensures Unique([x] + s) && forall y :: y in [x] + s <==> y == x || y in s
  {
    assert x !in s;
  }

  lemma TouchEffect(s: seq<Item>, key: Bytes)
    requires Unique(s)
    ensures Unique(Touch(s, key)) && forall x :: x in Touch(s, key) <==> x in s
  {
    var i := Find(s, key);
    if i < |s| {
      RemoveEffect(s, key);
      FrontUnique(s[i], Remove(s, key));
    }
  }

  lemma EvictEffect(s: seq<Item>)
    requires Unique(s) && s != []
    ensures Unique(Evict(s)) && forall x :: x in Evict(s) <==> x in s && x != s[|s| - 1]
  {
    EraseMembers(s, |s| - 1);
    EraseDistinct(s, |s| - 1);
    assert Erase(s, |s| - 1) == Evict(s);
  }

  // ---------------------------------------------------------------- histories

  datatype Op = DoTouch(key: Bytes) | DoAdd(key: Bytes, size: nat) | DoRemove(key: Bytes) | DoEvict

  function Apply(s: seq<Item>, op: Op): seq<Item> {
    match op
    case DoTouch(key) => Touch(s, key)
    case DoAdd(key, size) => Add(s, key, size)
    case DoRemove(key) => Remove(s, key)
    case DoEvict => Evict(s)
  }

  /** The list after the operations `ops` on an empty policy, the first operation first. */
  function Replay(ops: seq<Op>): seq<Item> {
    if ops == [] then [] else Apply(Replay(ops[..|ops| - 1]), ops[|ops| - 1])
  }

  predicate Uses(op: Op, key: Bytes) { (op.DoTouch? || op.DoAdd?) && op.key == key }

  /** When `key` was last added or touched: an index into `ops`, or -1. */
  function LastUse(ops: seq<Op>, key: Bytes): (i: int)
    ensures -1 <= i < |ops|
  {
    if ops == [] then -1
    else if Uses(ops[|ops| - 1], key) then |ops| - 1
    else LastUse(ops[..|ops| - 1], key)
  }

  lemma {:induction false} LastUseIsLatest(ops: seq<Op>, key: Bytes)
    ensures var i := LastUse(ops, key);
            && (i >= 0 ==> Uses(ops[i], key))
            && forall j :: i < j < |ops| ==> !Uses(ops[j], key)
  {
    if ops != [] { LastUseIsLatest(ops[..|ops| - 1], key); }
  }

  /** The size `key` was last added with, or 0. */
  function LastSize(ops: seq<Op>, key: Bytes): nat {
    if ops == [] then 0
    else match ops[|ops| - 1]
      case DoAdd(k, size) => if k == key then size else LastSize(ops[..|ops| - 1], key)
      case _ => LastSize(ops[..|ops| - 1], key)
  }

  ghost predicate ByRecency(ops: seq<Op>, s: seq<Item>) {
    && (forall i :: 0 <= i < |s| ==> LastUse(ops, s[i].key) >= 0 && s[i].size == LastSize(ops, s[i].key))
    && (forall i, j :: 0 <= i < j < |s| ==> LastUse(ops, s[i].key) > LastUse(ops, s[j].key))
  }

  lemma EraseByRecency(ops: seq<Op>, s: seq<Item>, i: nat)
    requires ByRecency(ops, s)
    ensures ByRecency(ops, Erase(s, i))
    ensures i < |s| ==> forall x :: x in Erase(s, i) ==> x.key != s[i].key
  {
    hide LastUse, LastSize;
    var s' := Erase(s, i);
    assert forall j :: 0 <= j < |s'| ==> s'[j] == s[if j < i then j else j + 1];
  }

  /** An operation that uses no live key changes no recency. */
  lemma UnusedByRecency(ops: seq<Op>, s: seq<Item>, op: Op)
    requires ByRecency(ops, s) && forall x :: x in s ==> !Uses(op, x.key)
    ensures ByRecency(ops + [op], s)
  {
    assert (ops + [op])[..|ops|] == ops;
    assert forall i :: 0 <= i < |s| ==> s[i] in s && LastUse(ops + [op], s[i].key) == LastUse(ops, s[i].key);
  }

  lemma LatestUse(ops: seq<Op>, key: Bytes)
    requires ops != []
    ensures LastUse(ops, key) == |ops| - 1 <==> Uses(ops[|ops| - 1], key)
  {
  }

  lemma FrontByRecency(ops: seq<Op>, s: seq<Item>, x: Item)
    requires ops != [] && ByRecency(ops, s) && Uses(ops[|ops| - 1], x.key)
    requires forall y :: y in s ==> !Uses(ops[|ops| - 1], y.key)
    requires x.size == LastSize(ops, x.key)
    ensures ByRecency(ops, [x] + s)
  {
    hide LastSize, LastUse, Uses;
    LatestUse(ops, x.key);
    forall i | 0 <= i < |s| ensures LastUse(ops, s[i].key) < |ops| - 1 {
      assert s[i] in s;
      LatestUse(ops, s[i].key);
    }
    var s' := [x] + s;
    assert forall i :: 0 < i < |s'| ==> s'[i] == s[i - 1];
    forall i, j | 0 <= i < j < |s'| ensures LastUse(ops, s'[i].key) > LastUse(ops, s'[j].key) {
      var y := s[j - 1];
      assert s'[j] == y && LastUse(ops, y.key) < |ops| - 1;
    }
  }

  lemma SizeByRecency(ops: seq<Op>, s: seq<Item>, i: nat)
    requires ByRecency(ops, s) && i < |s|
    ensures s[i].size == LastSize(ops, s[i].key)
  {
  }

  lemma LastSizeSnoc(ops: seq<Op>, op: Op, key: Bytes)
    ensures LastSize(ops + [op], key) == if op.DoAdd? && op.key == key then op.size else LastSize(ops, key)
  {
    assert (ops + [op])[..|ops|] == ops;
  }

  lemma ApplyByRecency(ops: seq<Op>, s: seq<Item>, op: Op)
    requires ByRecency(ops, s)
    ensures ByRecency(ops + [op], Apply(s, op))
  {
    hide ByRecency, LastUse, LastSize;
    if op == DoEvict {
      if s != [] {
        assert Erase(s, |s| - 1) == Evict(s);
        EraseByRecency(ops, s, |s| - 1);
      }
      UnusedByRecency(ops, Evict(s), op);
    } else {
      var i := Find(s, op.key);
      var rest := Erase(s, i);
      EraseByRecency(ops, s, i);
      if i == |s| { FindAbsent(s, op.key); }
      UnusedByRecency(ops, rest, op);
      LastSizeSnoc(ops, op, op.key);
      if op.DoAdd? {
        FrontByRecency(ops + [op], rest, Item(op.key, op.size));
      } else if op.DoTouch? && i < |s| {
        assert s[i].size == LastSize(ops, op.key) by { SizeByRecency(ops, s, i); }
        FrontByRecency(ops + [op], rest, s[i]);
      }
    }
  }

  /** Over any history, the list is the live keys by their last use, each with the size it was last added with. */
  lemma {:induction false} OrderIsRecency(ops: seq<Op>)
    ensures ByRecency(ops, Replay(ops))
  {
    if ops != [] {
      var k := |ops| - 1;
      OrderIsRecency(ops[..k]);
      ApplyByRecency(ops[..k], Replay(ops[..k]), ops[k]);
      assert ops[..k] + [ops[k]] == ops;
    }
  }

  lemma UniqueByRecency(ops: seq<Op>, s: seq<Item>)
    requires ByRecency(ops, s)
    ensures Unique(s)
  {
  }

  /** No operation affects any item but its own: what each one adds, drops and keeps. */
  lemma OpContents(ops: seq<Op>, op: Op)
    ensures var s, s' := Replay(ops), Replay(ops + [op]);
            forall x :: x in s' <==>
              match op
              case DoTouch(_) => x in s
              case DoAdd(key, size) => x == Item(key, size) || (x in s && x.key != key)
              case DoRemove(key) => x in s && x.key != key
              case DoEvict => x in s && x != s[|s| - 1]
  {
    var s := Replay(ops);
    assert (ops + [op])[..|ops|] == ops;
    OrderIsRecency(ops);
    UniqueByRecency(ops, s);
    match op
    case DoTouch(key) => TouchEffect(s, key);
    case DoAdd(key, size) => AddEffect(s, key, size);
    case DoRemove(key) => RemoveEffect(s, key);
    case DoEvict => if s != [] { EvictEffect(s); }
  }

  /** An eviction takes the one live key whose last use in the whole history is oldest, and keeps the others' order. */
  lemma EvictTakesOldest(ops: seq<Op>)
    requires Replay(ops) != []
    ensures var s := Replay(ops);
            var victim := s[|s| - 1];
            && Replay(ops + [DoEvict]) == s[..|s| - 1]
            && forall x :: x in s && x != victim ==> LastUse(ops, victim.key) < LastUse(ops, x.key)
  {
    OrderIsRecency(ops);
    assert (ops + [DoEvict])[..|ops|] == ops;
  }

  /** What the items cost whose last use is no older than `from`. */
  function CostSince(ops: seq<Op>, s: seq<Item>, from: int): nat {
    if s == [] then 0
    else (if LastUse(ops, s[0].key) >= from then Cost(s[0]) else 0) + CostSince(ops, s[1..], from)
  }

  lemma {:induction false} AllOlder(ops: seq<Op>, s: seq<Item>, from: int)
    requires forall x :: x in s ==> LastUse(ops, x.key) < from
    ensures CostSince(ops, s, from) == 0
  {
    hide LastUse;
    if s != [] { AllOlder(ops, s[1..], from); }
  }

  /** The front of the list, up to an item, is what has been used since that item was. */
  lemma {:induction false} FrontIsRecent(ops: seq<Op>, s: seq<Item>, i: nat)
    requires ByRecency(ops, s) && i < |s|
    ensures TotalCost(s[..i + 1]) == CostSince(ops, s, LastUse(ops, s[i].key))
    decreases i
  {
    hide LastUse, LastSize;
    var rest := s[1..];
    assert s[..i + 1] == [s[0]] + rest[..i];
    FrontCost(s[0], rest[..i]);
    if i == 0 {
      AllOlder(ops, rest, LastUse(ops, s[0].key));
    } else {
      FrontIsRecent(ops, rest, i - 1);
    }
  }
}

/** The LRU policy: a list of entries, most recent first, and an index from keys to list nodes. */
module LruPolicy {
  import opened ByteStrings
  import opened Sequences
  import opened LruOrder

  /** A list node. Its address is what a list iterator holds. */
  class Entry {
    const key: Bytes
    var size: nat

    constructor (key: Bytes, size: nat)
      ensures this.key == key && this.size == size
    {
      this.key, this.size := key, size;
    }
  }

  ghost function ItemsOf(list: seq<Entry>): (s: seq<Item>)
    reads list
    ensures |s| == |list|
  {
    seq(|list|, i requires 0 <= i < |list| reads list => Item(list[i].key, list[i].size))
  }

  /** The index maps exactly the listed keys, each to its node. */
  ghost predicate Indexed(list: seq<Entry>, index: map<Bytes, Entry>) {
    && (forall e :: e in list ==> e.key in index && index[e.key] == e)
    && (forall k :: k in index ==> index[k] in list && index[k].key == k)
  }

  class LRU {
    var list: seq<Entry>
    var index: map<Bytes, Entry>
    var memoryUsed: nat
    /** Every operation so far. */
    ghost var ops: seq<Op>

    ghost function Repr(): set<object>
      reads this`list
    {
      {this} + set e: Entry | e in list
    }

    /** The abstract value: keys and sizes, most recent first. */
    ghost function Items(): seq<Item>
      reads this`list, list
    {
      ItemsOf(list)
    }

    ghost predicate Valid()
      reads this`list, this`index, this`memoryUsed, list
    {
      Distinct(list) && Indexed(list, index) && memoryUsed == TotalCost(Items())
    }

    /** The list is what the history of operations says. */
    ghost predicate Recorded()
      reads this`list, this`ops, list
    {
      Items() == Replay(ops)
    }

    constructor ()
      ensures Valid() && Items() == [] && fresh(Repr()) && Recorded()
    {
      list, index, memoryUsed, ops := [], map[], 0, [];
    }

    /** The operation is over. */
    ghost method Record(op: Op)
      modifies this`ops
      ensures ops == old(ops) + [op] && Replay(ops) == Apply(Replay(old(ops)), op)
    {
      assert (ops + [op])[..|ops|] == ops;
      ops := ops + [op];
    }

    /** A node's place in the list is its key's place among the items. */
    lemma Place(e: Entry)
      requires Valid() && e in list
      ensures var i := Position(list, e); Find(Items(), e.key) == i && Items()[i] == Item(e.key, e.size)
    {
      var i := Position(list, e);
      forall j | 0 <= j < i ensures Keys(Items())[j] != e.key {
        assert list[j] in list && Keys(Items())[j] == list[j].key;
      }
      assert Keys(Items())[i] == e.key;
    }

    /** What is left of the list without a node. */
    lemma Without(e: Entry)
      requires Valid() && e in list
      ensures var i := Position(list, e);
              var rest := Erase(list, i);
              && Find(Items(), e.key) == i && Items()[i] == Item(e.key, e.size)
              && Distinct(rest) && ItemsOf(rest) == Erase(Items(), i)
              && (forall x :: x in rest <==> x in list && x != e)
              && TotalCost(Items()) == |e.key| + e.size + TotalCost(ItemsOf(rest))
    {
      hide Find, Position;
      var i := Position(list, e);
      Place(e);
      EraseMembers(list, i);
      SumErase(Cost, Items(), i);
      assert ItemsOf(Erase(list, i)) == Erase(Items(), i);
    }

    lemma Absent(key: Bytes)
      requires Valid() && key !in index
      ensures Find(Items(), key) == |Items()|
    {
      forall i | 0 <= i < |list| ensures Keys(Items())[i] != key {
        assert list[i] in list;
      }
    }

    /** `list.splice(list.begin(), list, it)`. */
    method MoveToFront(e: Entry)
      requires Valid() && e in list
      modifies this`list
      ensures Valid() && Items() == LruOrder.Touch(old(Items()), e.key)
      ensures Repr() == old(Repr()) && list != [] && list[0] == e
    {
      hide Erase, Position, Find;
      Without(e);
      ghost var s, rest := Items(), Erase(list, Position(list, e));
      FrontCost(Item(e.key, e.size), ItemsOf(rest));
      assert ItemsOf([e] + rest) == [Item(e.key, e.size)] + ItemsOf(rest);
      FrontOf(e, rest);
      list := [e] + Erase(list, Position(list, e));
    }

    lemma FrontOf(e: Entry, rest: seq<Entry>)
      requires Distinct(rest) && e !in rest
      ensures Distinct([e] + rest)
      ensures forall x :: x in [e] + rest <==> x == e || x in rest
    {
    }

    method Touch(key: Bytes)
      requires Valid()
      modifies this`list, this`ops
      ensures Valid() && Items() == LruOrder.Touch(old(Items()), key) && Repr() == old(Repr())
      ensures ops == old(ops) + [DoTouch(key)] && (old(Recorded()) ==> Recorded())
    {
      if key in index {
        MoveToFront(index[key]);
      } else {
        Absent(key);
      }
      Record(DoTouch(key));
    }

    method Add(key: Bytes, size: nat)
      requires Valid()
      modifies this, list
      ensures Valid() && Items() == LruOrder.Add(old(Items()), key, size)
      ensures ops == old(ops) + [DoAdd(key, size)] && (old(Recorded()) ==> Recorded())
      ensures fresh(Repr() - old(Repr()))
    {
      hide Valid, Items, LruOrder.Add, Replay, Repr;
      Insert(key, size);
      Record(DoAdd(key, size));
    }

    method Insert(key: Bytes, size: nat)
      requires Valid()
      modifies this`list, this`index, this`memoryUsed, list
      ensures Valid() && Items() == LruOrder.Add(old(Items()), key, size)
      ensures fresh(Repr() - old(Repr()))
    {
      ghost var s := Items();
      if key in index {
        var e := index[key];
        MoveToFront(e);
        SetFrontSize(size);
        assert [Item(key, size)] + LruOrder.Touch(s, key)[1..] == LruOrder.Add(s, key, size);
      } else {
        Absent(key);
        PushFront(key, size);
      }
    }

    method PushFront(key: Bytes, size: nat)
      requires Valid() && key !in index
      modifies this`list, this`index, this`memoryUsed
      ensures Valid() && Items() == [Item(key, size)] + old(Items())
      ensures fresh(Repr() - old(Repr()))
    {
      ghost var s := Items();
      FrontCost(Item(key, size), s);
      var e := new Entry(key, size);
      FrontOf(e, list);
      list := [e] + list;
      index := index[key := e];
      memoryUsed := memoryUsed + |key| + size;
      assert Items() == [Item(key, size)] + s;
    }

    /** The entry just moved to the front takes its new size. */
    method SetFrontSize(size: nat)
      requires Valid() && list != []
      modifies this`memoryUsed, list[0]
      ensures Valid() && Items() == [Item(list[0].key, size)] + old(Items())[1..]
    {
      var e := list[0];
      ghost var s := Items();
      FrontCost(s[0], s[1..]);
      assert s == [s[0]] + s[1..];
      FrontCost(Item(e.key, size), s[1..]);
      memoryUsed := memoryUsed - (|e.key| + e.size);
      e.size := size;
      memoryUsed := memoryUsed + |e.key| + size;
      assert Items() == [Item(e.key, size)] + s[1..];
    }

    /** Takes a node out of the list, the index and the memory count. */
    method Unlink(e: Entry)
      requires Valid() && e in list
      modifies this`list, this`index, this`memoryUsed
      ensures Valid() && Items() == LruOrder.Remove(old(Items()), e.key) && Repr() <= old(Repr())
    {
      hide Erase, Position, Find;
      Without(e);
      memoryUsed := memoryUsed - (|e.key| + e.size);
      index := index - {e.key};
      list := Erase(list, Position(list, e));
    }

    method Remove(key: Bytes)
      requires Valid()
      modifies this
      ensures Valid() && Items() == LruOrder.Remove(old(Items()), key) && Repr() <= old(Repr())
      ensures ops == old(ops) + [DoRemove(key)] && (old(Recorded()) ==> Recorded())
    {
      if key in index {
        Unlink(index[key]);
      } else {
        Absent(key);
      }
      Record(DoRemove(key));
    }

    method Evict() returns (key: Bytes)
      requires Valid()
      modifies this
      ensures Valid() && Items() == LruOrder.Evict(old(Items())) && Repr() <= old(Repr())
      ensures ops == old(ops) + [DoEvict] && (old(Recorded()) ==> Recorded())
      ensures key == if old(Items()) == [] then [] else old(Items())[|old(Items())| - 1].key
    {
      Record(DoEvict);
      if list == [] {
        return [];
      }
      var e := list[|list| - 1];
      Place(e);
      Unlink(e);
      return e.key;
    }

    method MemoryUsed() returns (bytes: nat)
      requires Valid()
      ensures bytes == TotalCost(Items())
    {
      return memoryUsed;
    }
  }
}
