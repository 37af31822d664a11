/** The SIEVE policy: a doubly linked list of heap nodes, a moving hand, and an index. */
module SievePolicy {
  import opened ByteStrings
  import opened Sequences
  import opened SieveOrder

  class Node {
    const key: Bytes
    var value: nat
    var visited: bool
    var prev: Node?
    var next: Node?

    constructor (key: Bytes, value: nat, next: Node?)
      ensures this.key == key && this.value == value && !visited && prev == null && this.next == next
    {
      this.key, this.value, visited, prev, this.next := key, value, false, null, next;
    }
  }

  ghost function SlotsOf(nodes: seq<Node>): (s: seq<Slot>)
    reads nodes
    ensures |s| == |nodes|
  {
    seq(|nodes|, i requires 0 <= i < |nodes| reads nodes => Slot(nodes[i].key, nodes[i].value, nodes[i].visited))
  }

  /** Every node's links are its neighbours in `nodes`. */
  ghost predicate Linked(nodes: seq<Node>)
    reads nodes
  {
    && (forall i {:trigger nodes[i].prev} :: 0 <= i < |nodes| ==> nodes[i].prev == At(nodes, i - 1))
    && (forall i {:trigger nodes[i].next} :: 0 <= i < |nodes| ==> nodes[i].next == At(nodes, i + 1))
  }

  /** The node at `i`, or null off either end. */
  ghost function At(nodes: seq<Node>, i: int): Node? { if 0 <= i < |nodes| then nodes[i] else null }

  ghost predicate Indexed(nodes: seq<Node>, index: map<Bytes, Node>) {
    && (forall n :: n in nodes ==> n.key in index && index[n.key] == n)
    && (forall k :: k in index ==> index[k] in nodes && index[k].key == k)
  }

  function Just(n: Node?): set<Node> { if n == null then {} else {n} }

  class SIEVE {
    var head: Node?
    var tail: Node?
    var hand: Node?
    var index: map<Bytes, Node>
    var memoryUsed: nat
    /** The list from head to tail. */
    ghost var nodes: seq<Node>
    /** Every operation so far. */
    ghost var ops: seq<Op>

    ghost function Repr(): set<object>
      reads this`nodes
    {
      {this} + set n: Node | n in nodes
    }

    ghost predicate Valid()
      reads this`head, this`tail, this`hand, this`index, this`memoryUsed, this`nodes, nodes
    {
      && Distinct(nodes) && Linked(nodes) && Indexed(nodes, index)
      && head == At(nodes, 0) && tail == At(nodes, |nodes| - 1)
      && (hand == null || hand in nodes)
      && memoryUsed == TotalCost(SlotsOf(nodes))
    }

    /** The abstract value: the slots from head to tail, and the hand as an index. */
    ghost function Abs(): Sieve
      reads this`hand, this`nodes, nodes
      requires hand == null || hand in nodes
    {
      Sieve(SlotsOf(nodes), if hand == null then -1 else Position(nodes, hand))
    }

    /** Slots and hand are what the history of operations says. */
    ghost predicate Recorded()
      reads this`hand, this`nodes, this`ops, nodes
      requires hand == null || hand in nodes
    {
      Abs() == Replay(ops)
    }

    constructor ()
      ensures Valid() && Abs() == Sieve([], -1) && fresh(Repr()) && Recorded()
    {
      head, tail, hand, index, memoryUsed, nodes, ops := null, null, null, map[], 0, [], [];
    }

    /** The operation is over. */
    ghost method Record(op: Op)
      modifies this`ops
      ensures ops == old(ops) + [op] && Replay(ops) == Apply(Replay(old(ops)), op)
    {
      ReplaySnoc(ops, op);
      ops := ops + [op];
    }

    /** A node's place in the list is its key's place among the slots. */
    lemma Place(n: Node)
      requires Valid() && n in nodes
      ensures var i := Position(nodes, n); Find(SlotsOf(nodes), n.key) == i && i < |nodes| && nodes[i] == n
    {
      var i, s := Position(nodes, n), SlotsOf(nodes);
      forall j | 0 <= j < i ensures s[j].key != n.key {
        assert nodes[j] in nodes && s[j].key == nodes[j].key;
      }
      assert s[i].key == n.key;
    }

    lemma Absent(key: Bytes)
      requires Valid() && key !in index
      ensures Find(SlotsOf(nodes), key) == |nodes|
    {
      forall i | 0 <= i < |nodes| ensures SlotsOf(nodes)[i].key != key {
        assert nodes[i] in nodes;
      }
    }

    lemma AbsValid()
      requires Valid()
      ensures Abs().Valid()
    {
      forall i, j | 0 <= i < j < |nodes| ensures SlotsOf(nodes)[i].key != SlotsOf(nodes)[j].key {
        assert nodes[i] in nodes && nodes[j] in nodes;
      }
    }

    method Touch(key: Bytes)
      requires Valid()
      modifies nodes, this`ops
      ensures Valid() && Abs() == SieveOrder.Touch(old(Abs()), key)
      ensures ops == old(ops) + [DoTouch(key)] && (old(Recorded()) ==> Recorded())
    {
      hide Valid, Abs, SieveOrder.Touch, Replay;
      SetVisited(key);
      Record(DoTouch(key));
    }

    method SetVisited(key: Bytes)
      requires Valid()
      modifies nodes
      ensures Valid() && Abs() == SieveOrder.Touch(old(Abs()), key)
    {
      hide Distinct, Indexed, TotalCost;
      if key in index {
        var n := index[key];
        assert n in nodes && n.key == key by { InIndex(key); }
        Place(n);
        ghost var i, s := Position(nodes, n), SlotsOf(nodes);
        n.visited := true;
        ghost var x := s[i].(visited := true);
        assert SlotsOf(nodes) == s[i := x] by { OnlyAt(n, i); }
        TotalCostUpdate(s, i, x);
      } else {
        Absent(key);
      }
    }

    lemma InIndex(key: Bytes)
      requires Valid() && key in index
      ensures index[key] in nodes && index[key].key == key
    {
    }

    lemma OnlyAt(n: Node, i: nat)
      requires Distinct(nodes) && i < |nodes| && nodes[i] == n
      ensures forall j :: 0 <= j < |nodes| && j != i ==> nodes[j] != n
    {
    }

    method Add(key: Bytes, size: nat)
      requires Valid()
      modifies this, nodes
      ensures Valid() && Abs() == SieveOrder.Add(old(Abs()), key, size)
      ensures ops == old(ops) + [DoAdd(key, size)] && (old(Recorded()) ==> Recorded())
      ensures fresh(Repr() - old(Repr()))
    {
      hide Valid, Abs, SieveOrder.Add, Replay, Repr;
      Insert(key, size);
      Record(DoAdd(key, size));
    }

    method Insert(key: Bytes, size: nat)
      requires Valid()
      modifies this`head, this`tail, this`hand, this`nodes, this`index, this`memoryUsed, nodes
      ensures Valid() && Abs() == SieveOrder.Add(old(Abs()), key, size)
      ensures fresh(Repr() - old(Repr()))
    {
      if key in index {
        Resize(index[key], size);
      } else {
        Absent(key);
        PushFront(key, size);
      }
    }

    method Resize(n: Node, size: nat)
      requires Valid() && n in nodes
      modifies this`memoryUsed, n`value
      ensures Valid() && Abs() == SieveOrder.Add(old(Abs()), n.key, size)
    {
      hide Distinct, Indexed, TotalCost;
      Place(n);
      ghost var i, s := Position(nodes, n), SlotsOf(nodes);
      TotalCostErase(s, i);
      memoryUsed := memoryUsed - (|n.key| + n.value);
      n.value := size;
      memoryUsed := memoryUsed + |n.key| + size;
      ghost var x := s[i].(size := size);
      assert SlotsOf(nodes) == s[i := x] by { OnlyAt(n, i); }
      TotalCostUpdate(s, i, x);
    }

    method PushFront(key: Bytes, size: nat)
      requires Valid() && key !in index
      modifies this`head, this`tail, this`hand, this`nodes, this`index, this`memoryUsed, nodes
      ensures Valid() && fresh(Repr() - old(Repr()))
      ensures Abs() == Sieve([Slot(key, size, false)] + old(SlotsOf(nodes)),
                             if old(hand) == null then -1 else old(Abs()).hand + 1)
    {
      hide TotalCost, Linked, At, Distinct, Indexed;
      ghost var s := SlotsOf(nodes);
      TotalCostFront(Slot(key, size, false), s);
      var n := new Node(key, size, head);
      LinkFront(n);
      PushIndexed(old(nodes), index, n);
      index := index[key := n];
      memoryUsed := memoryUsed + |key| + size;
      assert SlotsOf(nodes) == [Slot(key, size, false)] + s;
      assert nodes[1..] == old(nodes);
    }

    static lemma PushIndexed(list: seq<Node>, index: map<Bytes, Node>, n: Node)
      requires Indexed(list, index) && n.key !in index
      ensures Indexed([n] + list, index[n.key := n])
    {
    }

    method LinkFront(n: Node)
      requires Distinct(nodes) && Linked(nodes) && head == At(nodes, 0) && tail == At(nodes, |nodes| - 1)
      requires n !in nodes && n.prev == null && n.next == head
      modifies this`head, this`tail, this`nodes, nodes
      ensures nodes == [n] + old(nodes)
      ensures Distinct(nodes) && Linked(nodes) && head == At(nodes, 0) && tail == At(nodes, |nodes| - 1)
      ensures SlotsOf(nodes[1..]) == old(SlotsOf(nodes))
    {
      if head != null {
        head.prev := n;
      }
      head := n;
      if tail == null {
        tail := n;
      }
      nodes := [n] + nodes;
      assert nodes[1..] == old(nodes);
      assert forall i :: 0 < i < |nodes| ==> nodes[i] == old(nodes)[i - 1];
    }

    ghost predicate Apart(n: Node, p: Node?, q: Node?) { p != n && q != n && (p == q ==> p == null) }

    lemma NeighboursApart(n: Node, i: nat)
      requires Distinct(nodes) && i < |nodes| && nodes[i] == n
      ensures Apart(n, At(nodes, i - 1), At(nodes, i + 1))
    {
    }

    /** The four pointer assignments that take `n` out of the chain. */
    method Bypass(n: Node)
      requires Apart(n, n.prev, n.next)
      modifies this`head, this`tail, Just(n.prev)`next, Just(n.next)`prev
      ensures n.prev == old(n.prev) && n.next == old(n.next)
      ensures if n.prev == null then head == n.next else head == old(head) && n.prev.next == n.next
      ensures if n.next == null then tail == n.prev else tail == old(tail) && n.next.prev == n.prev
    {
      if n.prev != null {
        n.prev.next := n.next;
      } else {
        head := n.next;
      }
      if n.next != null {
        n.next.prev := n.prev;
      } else {
        tail := n.prev;
      }
    }

    /** Takes `n` out of the list. */
    method Splice(n: Node, ghost i: nat)
      requires Distinct(nodes) && Linked(nodes) && head == At(nodes, 0) && tail == At(nodes, |nodes| - 1)
      requires i < |nodes| && nodes[i] == n
      modifies this`head, this`tail, this`nodes, Just(n.prev)`next, Just(n.next)`prev
      ensures nodes == Erase(old(nodes), i) && SlotsOf(nodes) == Erase(old(SlotsOf(nodes)), i)
      ensures Linked(nodes) && head == At(nodes, 0) && tail == At(nodes, |nodes| - 1)
      ensures n.prev == old(n.prev)
    {
      hide Distinct, Erase, Linked, At;
      ghost var before, s := nodes, SlotsOf(nodes);
      Unchain(n, i);
      assert SlotsOf(before) == s;
      ErasedSlots(before, i);
    }

    method Unchain(n: Node, ghost i: nat)
      requires Distinct(nodes) && Linked(nodes) && head == At(nodes, 0) && tail == At(nodes, |nodes| - 1)
      requires i < |nodes| && nodes[i] == n
      modifies this`head, this`tail, this`nodes, Just(n.prev)`next, Just(n.next)`prev
      ensures nodes == Erase(old(nodes), i) && n.prev == old(n.prev)
      ensures Linked(nodes) && head == At(nodes, 0) && tail == At(nodes, |nodes| - 1)
    {
      ghost var p, q, before := n.prev, n.next, nodes;
      assert p == At(before, i - 1) && q == At(before, i + 1);
      hide Distinct, Erase;
      assert Apart(n, p, q) by { NeighboursApart(n, i); }
      Bypass(n);
      nodes := Erase(nodes, i);
      ErasedLinks(before, i, p, q);
      ErasedEnds(before, i);
    }

    static lemma ErasedSlots(before: seq<Node>, i: nat)
      ensures SlotsOf(Erase(before, i)) == Erase(SlotsOf(before), i)
    {
    }

    /** The ends of a list without the node at `i`. */
    static lemma ErasedEnds(before: seq<Node>, i: nat)
      requires i < |before|
      ensures var after := Erase(before, i);
              && At(after, 0) == (if i == 0 then At(before, 1) else At(before, 0))
              && At(after, |after| - 1) == (if i == |before| - 1 then At(before, i - 1) else At(before, |before| - 1))
    {
    }

    /** With the two neighbours of a node joined, the rest of the list is linked. */
    static lemma ErasedLinks(before: seq<Node>, i: nat, p: Node?, q: Node?)
      requires Distinct(before) && i < |before|
      requires p == At(before, i - 1) && q == At(before, i + 1)
      requires forall j {:trigger before[j].prev} :: 0 <= j < |before| ==>
                 before[j].prev == if before[j] == q then p else At(before, j - 1)
      requires forall j {:trigger before[j].next} :: 0 <= j < |before| ==>
                 before[j].next == if before[j] == p then q else At(before, j + 1)
      ensures Linked(Erase(before, i))
    {
      var after := Erase(before, i);
      forall j | 0 <= j < |after|
        ensures after[j].prev == At(after, j - 1) && after[j].next == At(after, j + 1)
      {
        var k := if j < i then j else j + 1;
        assert after[j] == before[k] && k != i;
        assert before[k] == q <==> k == i + 1;
        assert before[k] == p <==> k == i - 1;
      }
    }

    /** What the list, the index and the memory count become without the node at `i`. */
    lemma Dropped(n: Node, i: nat)
      requires Valid() && i < |nodes| && nodes[i] == n
      ensures Distinct(Erase(nodes, i)) && Indexed(Erase(nodes, i), index - {n.key})
      ensures memoryUsed == |n.key| + n.value + TotalCost(Erase(SlotsOf(nodes), i))
      ensures forall x :: x in Erase(nodes, i) ==> x in nodes
    {
      hide Linked;
      EraseMembers(nodes, i);
      EraseDistinct(nodes, i);
      TotalCostErase(SlotsOf(nodes), i);
    }

    /** Takes `n` out of the list, the index and the memory count; the hand is left to the caller. */
    method Unlink(n: Node, ghost i: nat)
      requires Valid() && i < |nodes| && nodes[i] == n
      modifies this`head, this`tail, this`nodes, this`index, this`memoryUsed, Just(n.prev)`next, Just(n.next)`prev
      ensures nodes == Erase(old(nodes), i) && SlotsOf(nodes) == Erase(old(SlotsOf(nodes)), i)
      ensures Distinct(nodes) && Linked(nodes) && Indexed(nodes, index)
      ensures head == At(nodes, 0) && tail == At(nodes, |nodes| - 1)
      ensures memoryUsed == TotalCost(SlotsOf(nodes))
      ensures n.prev == old(n.prev) && forall x :: x in nodes ==> x in old(nodes)
    {
      hide Distinct, Indexed, Linked, TotalCost, Erase, At;
      Dropped(n, i);
      index := index - {n.key};
      memoryUsed := memoryUsed - (|n.key| + n.value);
      Splice(n, i);
    }

    method Remove(key: Bytes)
      requires Valid()
      modifies this, nodes
      ensures Valid() && Abs() == SieveOrder.Remove(old(Abs()), key) && Repr() <= old(Repr())
      ensures ops == old(ops) + [DoRemove(key)] && (old(Recorded()) ==> Recorded())
    {
      hide Valid, Abs, SieveOrder.Remove, Replay, Repr;
      Discard(key);
      Record(DoRemove(key));
    }

    method Discard(key: Bytes)
      requires Valid()
      modifies this`head, this`tail, this`hand, this`nodes, this`index, this`memoryUsed, nodes
      ensures Valid() && Abs() == SieveOrder.Remove(old(Abs()), key) && Repr() <= old(Repr())
    {
      if key !in index {
        Absent(key);
        return;
      }
      var n := index[key];
      InIndex(key);
      ghost var i := Position(nodes, n);
      Place(n);
      RemoveNode(n, i);
    }

    method RemoveNode(n: Node, ghost i: nat)
      requires Valid() && i < |nodes| && nodes[i] == n
      modifies this`head, this`tail, this`hand, this`nodes, this`index, this`memoryUsed, nodes
      ensures Valid() && Abs() == Without(old(Abs()), i) && Repr() <= old(Repr())
    {
      hide Distinct, Indexed, Linked, TotalCost, Erase, Position;
      NeighbourPlaces(i);
      Unlink(n, i);
      if hand == n {
        hand := n.prev;
      }
      HandAfterErase(old(nodes), i, old(hand), hand, n.prev);
    }

    lemma NeighbourPlaces(i: nat)
      requires Valid() && i < |nodes|
      ensures nodes[i].prev == At(nodes, i - 1)
      ensures nodes[i].prev != null ==> nodes[i].prev in nodes
      ensures nodes[i].next != null ==> nodes[i].next in nodes
    {
    }

    /** Where the hand points once the node at `i` is gone. */
    static lemma HandAfterErase(before: seq<Node>, i: nat, h: Node?, h': Node?, p: Node?)
      requires Distinct(before) && i < |before| && p == At(before, i - 1)
      requires (h == null || h in before) && h' == if h == before[i] then p else h
      ensures h' != null ==> h' in Erase(before, i)
      ensures (if h' == null then -1 else Position(Erase(before, i), h')) ==
              (var k := if h == null then -1 else Position(before, h); if k >= i then k - 1 else k)
    {
      var after := Erase(before, i);
      assert forall j :: 0 <= j < |after| ==> after[j] == before[if j < i then j else j + 1];
      if h' != null {
        var k := if h == before[i] then i - 1 else Position(before, h);
        assert before[k] == h' && k != i;
        PositionIs(before, k);
        EraseDistinct(before, i);
        PositionIs(after, if k < i then k else k - 1);
        PositionIs(before, i);
      } else if h != null {
        PositionIs(before, i);
      }
    }

    /** `n->visited = false`. */
    method ClearBit(n: Node, ghost i: nat)
      requires Distinct(nodes) && Linked(nodes) && i < |nodes| && nodes[i] == n
      modifies n`visited
      ensures Linked(nodes) && n.prev == At(nodes, i - 1)
      ensures SlotsOf(nodes) == old(SlotsOf(nodes))[i := old(SlotsOf(nodes))[i].(visited := false)]
    {
      OnlyAt(n, i);
      hide Distinct;
      ghost var s := SlotsOf(nodes);
      n.visited := false;
      assert SlotsOf(nodes) == s[i := s[i].(visited := false)];
    }

    /** Walks from the hand, or the tail, to the nearest unvisited node, clearing the bits on the way. */
    method Walk() returns (victim: Node?)
      requires Valid() && nodes != []
      modifies (set n: Node | n in nodes)`visited
      ensures Valid() && Abs().hand == old(Abs()).hand
      ensures var u := Unvisited(old(Abs()).slots, old(Abs()).Start());
              SlotsOf(nodes) == Clear(old(Abs()).slots, u, old(Abs()).Start()) && victim == At(nodes, u)
    {
      hide Distinct, Indexed, Linked, TotalCost;
      ghost var s, from := SlotsOf(nodes), Abs().Start();
      ghost var i := from;
      victim := if hand != null then hand else tail;
      assert Clear(s, from, from) == s;
      while victim != null && victim.visited
        invariant -1 <= i <= from < |nodes| && victim == At(nodes, i)
        invariant Linked(nodes) && SlotsOf(nodes) == Clear(s, i, from)
        invariant Unvisited(s, from) == Unvisited(s, i)
        decreases i
      {
        assert Clear(s, i, from)[i].visited by { assert SlotsOf(nodes)[i].visited; }
        ClearBit(victim, i);
        assert Clear(s, i, from)[i := s[i].(visited := false)] == Clear(s, i - 1, from);
        victim := victim.prev;
        i := i - 1;
      }
      if i >= 0 { assert !SlotsOf(nodes)[i].visited; }
      SameCost(s, SlotsOf(nodes));
    }

    /** The end of the walk or, if it ran off the head, the tail, whatever its bit. */
    method FindVictim() returns (victim: Node)
      requires Valid() && Abs().Valid() && nodes != []
      modifies (set n: Node | n in nodes)`visited
      ensures Valid() && Abs().hand == old(Abs()).hand
      ensures var u := Unvisited(old(Abs()).slots, old(Abs()).Start());
              SlotsOf(nodes) == Clear(old(Abs()).slots, u, old(Abs()).Start())
      ensures victim == nodes[VictimIndex(old(Abs()))]
    {
      hide Distinct, Indexed, Linked, TotalCost, Position, Clear, Unvisited;
      var n := Walk();
      if n == null {
        n := tail;
      }
      return n;
    }

    method Evict() returns (key: Bytes)
      requires Valid()
      modifies this, nodes
      ensures Valid() && Repr() <= old(Repr())
      ensures old(Abs()).Valid() && Abs() == SieveOrder.Evict(old(Abs()))
      ensures ops == old(ops) + [DoEvict] && (old(Recorded()) ==> Recorded())
      ensures key == if old(nodes) == [] then [] else old(Abs()).slots[VictimIndex(old(Abs()))].key
    {
      hide Valid, Abs, SieveOrder.Evict, VictimIndex, Replay, Repr;
      key := TakeVictim();
      Record(DoEvict);
    }

    method TakeVictim() returns (key: Bytes)
      requires Valid()
      modifies this`head, this`tail, this`hand, this`nodes, this`index, this`memoryUsed, nodes
      ensures Valid() && Repr() <= old(Repr())
      ensures old(Abs()).Valid() && Abs() == SieveOrder.Evict(old(Abs()))
      ensures key == if old(nodes) == [] then [] else old(Abs()).slots[VictimIndex(old(Abs()))].key
    {
      AbsValid();
      if tail == null {
        return [];
      }
      hide Distinct, Indexed, Linked, TotalCost, Position, Clear, Unvisited, Erase, VictimIndex;
      ghost var v := VictimIndex(Abs());
      var victim := FindVictim();
      key := victim.key;
      EvictNode(victim, v);
    }

    method EvictNode(victim: Node, ghost v: nat)
      requires Valid() && v < |nodes| && nodes[v] == victim
      modifies this`head, this`tail, this`hand, this`nodes, this`index, this`memoryUsed, nodes
      ensures Valid() && Abs() == Sieve(Erase(old(Abs()).slots, v), v - 1) && Repr() <= old(Repr())
    {
      hide Indexed, Linked, TotalCost, Erase, Position;
      NeighbourPlaces(v);
      PositionIs(nodes, v);
      hide Distinct;
      hand := victim.prev;
      Unlink(victim, v);
      HandAfterErase(old(nodes), v, victim, hand, hand);
    }

    method MemoryUsed() returns (bytes: nat)
      requires Valid()
      ensures bytes == TotalCost(Abs().slots)
    {
      return memoryUsed;
    }
  }
}
