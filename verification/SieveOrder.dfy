/** SIEVE as a sequence of slots with a hand: head first, the hand moving from tail to head. */
module SieveOrder {
  import opened ByteStrings
  import opened Sequences

  datatype Slot = Slot(key: Bytes, size: nat, visited: bool)

  ghost predicate DistinctKeys(s: seq<Slot>) {
    forall i, j :: 0 <= i < j < |s| ==> s[i].key != s[j].key
  }

  /** `hand` is an index into `slots`, or -1 for a null hand. */
  datatype Sieve = Sieve(slots: seq<Slot>, hand: int) {
    ghost predicate Valid() {
      -1 <= hand < |slots| && DistinctKeys(slots)
    }

    /** Where the next eviction starts looking. */
    function Start(): int {
      if hand >= 0 then hand else |slots| - 1
    }
  }

  function Cost(x: Slot): nat { |x.key| + x.size }

  function TotalCost(s: seq<Slot>): nat { Sum(Cost, s) }

  lemma TotalCostErase(s: seq<Slot>, i: nat)
    requires i < |s|
    ensures TotalCost(s) == Cost(s[i]) + TotalCost(Erase(s, i))
  {
    SumErase(Cost, s, i);
  }

  lemma TotalCostUpdate(s: seq<Slot>, i: nat, x: Slot)
    requires i < |s|
    ensures TotalCost(s[i := x]) + Cost(s[i]) == TotalCost(s) + Cost(x)
  {
    SumUpdate(Cost, s, i, x);
  }

  lemma TotalCostFront(x: Slot, s: seq<Slot>)
    ensures TotalCost([x] + s) == Cost(x) + TotalCost(s)
  {
    assert ([x] + s)[1..] == s;
  }

  lemma {:induction false} SameCost(s: seq<Slot>, s': seq<Slot>)
    requires |s'| == |s| && forall i :: 0 <= i < |s| ==> Cost(s'[i]) == Cost(s[i])
    ensures TotalCost(s') == TotalCost(s)
  {
    if s != [] { SameCost(s[1..], s'[1..]); }
  }

  function Find(s: seq<Slot>, key: Bytes): (i: nat)
    ensures i <= |s|
    ensures i < |s| ==> s[i].key == key
    ensures forall j :: 0 <= j < i ==> s[j].key != key
  {
    if s == [] then 0 else if s[0].key == key then 0 else 1 + Find(s[1..], key)
  }

  function Touch(s: Sieve, key: Bytes): Sieve {
    var i := Find(s.slots, key);
    if i < |s.slots| then s.(slots := s.slots[i := s.slots[i].(visited := true)]) else s
  }

  function Add(s: Sieve, key: Bytes, size: nat): Sieve {
    var i := Find(s.slots, key);
    if i < |s.slots| then s.(slots := s.slots[i := s.slots[i].(size := size)])
    else Sieve([Slot(key, size, false)] + s.slots, if s.hand >= 0 then s.hand + 1 else -1)
  }

  /** Without the slot at `i`; a hand on it moves to its headward neighbour. */
  function Without(s: Sieve, i: nat): Sieve {
    Sieve(Erase(s.slots, i), if s.hand >= i then s.hand - 1 else s.hand)
  }

  function Remove(s: Sieve, key: Bytes): Sieve {
    var i := Find(s.slots, key);
    if i < |s.slots| then Without(s, i) else s
  }

  /** The nearest unvisited slot at or headward of `from`, or -1. */
  function Unvisited(s: seq<Slot>, from: int): (i: int)
    requires from < |s|
    ensures -1 <= i < |s| && (from >= -1 ==> i <= from)
    decreases from
  {
    if from < 0 then -1 else if !s[from].visited then from else Unvisited(s, from - 1)
  }

  /** The slots with the visited bits strictly above `low`, up to `high`, cleared. */
  function Clear(s: seq<Slot>, low: int, high: int): (r: seq<Slot>)
    ensures |r| == |s|
  {
    seq(|s|, i requires 0 <= i < |s| => if low < i <= high then s[i].(visited := false) else s[i])
  }

  function VictimIndex(s: Sieve): (i: nat)
    requires s.Valid() && s.slots != []
    ensures i < |s.slots|
  {
    var v := Unvisited(s.slots, s.Start());
    if v >= 0 then v else |s.slots| - 1
  }

  function Evict(s: Sieve): Sieve
    requires s.Valid()
  {
    if s.slots == [] then s
    else
      var cleared := Clear(s.slots, Unvisited(s.slots, s.Start()), s.Start());
      var v := VictimIndex(s);
      Sieve(Erase(cleared, v), v - 1)
  }

  // ---------------------------------------------------------------- what the other operations do

  /** A touch marks its key as visited, whether it was or not, and changes nothing else. */
  lemma TouchMarks(s: Sieve, key: Bytes, i: nat)
    requires s.Valid() && i < |s.slots|
    ensures var s' := Touch(s, key);
            && |s'.slots| == |s.slots| && s'.hand == s.hand
            && s'.slots[i] == Slot(s.slots[i].key, s.slots[i].size, s.slots[i].visited || s.slots[i].key == key)
  {
  }

  /** A new key goes to the head, unvisited, and the hand stays on its slot; a key already there takes the new size. */
  lemma AddPlaces(s: Sieve, key: Bytes, size: nat)
    requires s.Valid()
    ensures var s' := Add(s, key, size);
            if exists i :: 0 <= i < |s.slots| && s.slots[i].key == key
            then |s'.slots| == |s.slots| && s'.hand == s.hand &&
                 forall i :: 0 <= i < |s.slots| ==>
                   s'.slots[i] == if s.slots[i].key == key then Slot(key, size, s.slots[i].visited) else s.slots[i]
            else s'.slots == [Slot(key, size, false)] + s.slots &&
                 s'.hand == (if s.hand < 0 then -1 else s.hand + 1)
  {
    var i := Find(s.slots, key);
    if i < |s.slots| { assert s.slots[i].key == key; }
  }

  /** A removal drops its key's slot; a hand on another slot stays on it, and one on that slot moves headward. */
  lemma RemoveDrops(s: Sieve, i: nat)
    requires s.Valid() && i < |s.slots|
    ensures var s' := Remove(s, s.slots[i].key);
            && s'.slots == s.slots[..i] + s.slots[i + 1..]
            && (0 <= s.hand && s.hand != i ==> 0 <= s'.hand < |s'.slots| && s'.slots[s'.hand] == s.slots[s.hand])
            && (s.hand == i ==> s'.hand == i - 1) && (s.hand == -1 ==> s'.hand == -1)
  {
    var j := Find(s.slots, s.slots[i].key);
    assert j == i;
  }

  // ---------------------------------------------------------------- what an eviction does

  lemma {:induction false} UnvisitedIsNearest(s: seq<Slot>, from: int)
    requires -1 <= from < |s|
    ensures var v := Unvisited(s, from);
            && (v >= 0 ==> !s[v].visited)
            && forall i :: v < i <= from ==> s[i].visited
    decreases from
  {
    if from >= 0 && s[from].visited { UnvisitedIsNearest(s, from - 1); }
  }

  /** The victim is the nearest unvisited slot at or headward of the start; when there is none, the tail goes. */
  lemma EvictTakesNearestUnvisited(s: Sieve, v: nat)
    requires s.Valid() && v < |s.slots|
    ensures VictimIndex(s) == v <==>
            if AnyUnvisited(s)
            then v <= s.Start() && !s.slots[v].visited && forall i :: v < i <= s.Start() ==> s.slots[i].visited
            else v == |s.slots| - 1
  {
    UnvisitedIsNearest(s.slots, s.Start());
  }

  ghost predicate AnyUnvisited(s: Sieve)
    requires s.Valid()
  {
    exists i :: 0 <= i <= s.Start() && !s.slots[i].visited
  }

  /** Only the victim leaves, and only the slots passed on the way to it, or to the head, lose their bit. */
  lemma EvictClearsPassed(s: Sieve, i: nat)
    requires s.Valid() && i < |s.slots| && i != VictimIndex(s)
    ensures |Evict(s).slots| == |s.slots| - 1 && Evict(s).hand == VictimIndex(s) - 1
    ensures Evict(s).slots[if i < VictimIndex(s) then i else i - 1] ==
            if (if AnyUnvisited(s) then VictimIndex(s) else -1) < i <= s.Start()
            then s.slots[i].(visited := false) else s.slots[i]
  {
    hide DistinctKeys;
    UnvisitedIsNearest(s.slots, s.Start());
  }

  /** Whether the victim still carries its visited bit when it is taken. */
  predicate VictimStillVisited(s: Sieve)
    requires s.Valid() && s.slots != []
  {
    Clear(s.slots, Unvisited(s.slots, s.Start()), s.Start())[VictimIndex(s)].visited
  }

  /**
   A visited slot is evicted exactly when the hand started away from a visited tail and every slot from
   the hand to the head was visited: the wrap to the tail does not look at its bit again.
   */
  lemma WhenVisitedIsEvicted(s: Sieve)
    requires s.Valid() && s.slots != []
    ensures VictimStillVisited(s) <==>
            && 0 <= s.hand < |s.slots| - 1
            && s.slots[|s.slots| - 1].visited
            && forall i :: 0 <= i <= s.hand ==> s.slots[i].visited
  {
    UnvisitedIsNearest(s.slots, s.Start());
  }

  /** From a null hand the victim's bit is always clear by the time it is taken. */
  lemma NullHandEvictsUnvisited(s: Sieve)
    requires s.Valid() && s.slots != [] && s.hand == -1
    ensures !VictimStillVisited(s)
  {
    WhenVisitedIsEvicted(s);
  }

  // ---------------------------------------------------------------- histories

  datatype Op = DoTouch(key: Bytes) | DoAdd(key: Bytes, size: nat) | DoRemove(key: Bytes) | DoEvict

  function Apply(s: Sieve, op: Op): Sieve
    requires s.Valid()
  {
    match op
    case DoTouch(key) => Touch(s, key)
    case DoAdd(key, size) => Add(s, key, size)
    case DoRemove(key) => Remove(s, key)
    case DoEvict => Evict(s)
  }

  lemma EraseKeys(s: seq<Slot>, i: nat)
    requires DistinctKeys(s)
    ensures DistinctKeys(Erase(s, i))
  {
    var s' := Erase(s, i);
    assert i < |s| ==> forall j :: 0 <= j < |s'| ==> s'[j] == s[if j < i then j else j + 1];
  }

  lemma SameKeys(s: seq<Slot>, s': seq<Slot>)
    requires DistinctKeys(s) && |s'| == |s| && forall i :: 0 <= i < |s| ==> s'[i].key == s[i].key
    ensures DistinctKeys(s')
  {
  }

  lemma ApplyValid(s: Sieve, op: Op)
    requires s.Valid()
    ensures Apply(s, op).Valid()
  {
    if op == DoEvict {
      if s.slots != [] {
        var cleared := Clear(s.slots, Unvisited(s.slots, s.Start()), s.Start());
        SameKeys(s.slots, cleared);
        EraseKeys(cleared, VictimIndex(s));
      }
    } else {
      hide DistinctKeys;
      var i := Find(s.slots, op.key);
      EraseKeys(s.slots, i);
      if i == |s.slots| && op.DoAdd? {
        PushKeys(Slot(op.key, op.size, false), s.slots);
      } else if i < |s.slots| {
        SameKeys(s.slots, s.slots[i := s.slots[i].(visited := true)]);
        if op.DoAdd? { SameKeys(s.slots, s.slots[i := s.slots[i].(size := op.size)]); }
      }
    }
  }

  lemma PushKeys(x: Slot, s: seq<Slot>)
    requires DistinctKeys(s) && forall i :: 0 <= i < |s| ==> s[i].key != x.key
    ensures DistinctKeys([x] + s)
  {
  }

  /** The policy after the operations `ops` on an empty one, the first operation first. */
  function Replay(ops: seq<Op>): (s: Sieve)
    ensures s.Valid()
  {
    if ops == [] then Sieve([], -1)
    else
      var before := Replay(ops[..|ops| - 1]);
      ApplyValid(before, ops[|ops| - 1]);
      Apply(before, ops[|ops| - 1])
  }

  lemma ReplaySnoc(ops: seq<Op>, op: Op)
    ensures Replay(ops + [op]) == Apply(Replay(ops), op)
  {
    assert (ops + [op])[..|ops|] == ops;
  }

  lemma ThreeKeys() returns (ops: seq<Op>)
    ensures Replay(ops) == Sieve([Slot("a", 1, false), Slot("b", 1, false), Slot("c", 1, false)], -1)
  {
    assert Replay([]) == Sieve([], -1);
    hide Replay;
    ops := AndThen([], DoAdd("c", 1), Sieve([Slot("c", 1, false)], -1));
    ops := AndThen(ops, DoAdd("b", 1), Sieve([Slot("b", 1, false), Slot("c", 1, false)], -1));
    ops := AndThen(ops, DoAdd("a", 1), Sieve([Slot("a", 1, false), Slot("b", 1, false), Slot("c", 1, false)], -1));
  }

  /** Three keys are added and the oldest is saved by its bit: the next one goes, and the hand stops at the head. */
  lemma SecondChance() returns (ops: seq<Op>)
    ensures Replay(ops) == Sieve([Slot("a", 1, false), Slot("c", 1, false)], 0)
  {
    ops := ThreeKeys();
    hide Replay;
    ops := AndThen(ops, DoTouch("c"), Sieve([Slot("a", 1, false), Slot("b", 1, false), Slot("c", 1, true)], -1));
    ops := FirstEviction(ops);
  }

  lemma FirstEviction(ops: seq<Op>) returns (ops': seq<Op>)
    requires Replay(ops) == Sieve([Slot("a", 1, false), Slot("b", 1, false), Slot("c", 1, true)], -1)
    ensures Replay(ops') == Sieve([Slot("a", 1, false), Slot("c", 1, false)], 0)
  {
    hide Replay;
    var s := Replay(ops);
    assert Unvisited(s.slots, 2) == Unvisited(s.slots, 1) == 1;
    assert Erase(Clear(s.slots, 1, 2), 1) == [Slot("a", 1, false), Slot("c", 1, false)];
    ops' := AndThen(ops, DoEvict, Sieve([Slot("a", 1, false), Slot("c", 1, false)], 0));
  }

  lemma AndThen(ops: seq<Op>, op: Op, s: Sieve) returns (ops': seq<Op>)
    requires Apply(Replay(ops), op) == s
    ensures Replay(ops') == s
  {
    ReplaySnoc(ops, op);
    ops' := ops + [op];
  }

  /** A run of the policy can evict a visited tail: the hand is at the head, and the tail was touched meanwhile. */
  lemma VisitedTailCanBeEvicted() returns (ops: seq<Op>)
    ensures Replay(ops).slots != [] && VictimStillVisited(Replay(ops))
  {
    ops := SecondChance();
    ops := AndThen(ops, DoTouch("a"), Sieve([Slot("a", 1, true), Slot("c", 1, false)], 0));
    ops := AndThen(ops, DoTouch("c"), Sieve([Slot("a", 1, true), Slot("c", 1, true)], 0));
    WhenVisitedIsEvicted(Replay(ops));
  }

  // ---------------------------------------------------------------- bounded wait

  function Evictions(ops: seq<Op>): nat {
    if ops == [] then 0 else (if ops[0] == DoEvict then 1 else 0) + Evictions(ops[1..])
  }

  /** Whether some eviction in the run takes `key`. */
  ghost predicate TakesKey(s: Sieve, ops: seq<Op>, key: Bytes)
    requires s.Valid()
    decreases |ops|
  {
    && ops != []
    && (|| (ops[0] == DoEvict && s.slots != [] && s.slots[VictimIndex(s)].key == key)
        || (ApplyValid(s, ops[0]); TakesKey(Apply(s, ops[0]), ops[1..], key)))
  }

  /** `key` sits unvisited at `p`, at or headward of where the next eviction starts. */
  ghost predicate Waiting(s: Sieve, key: Bytes, p: nat) {
    p <= s.Start() < |s.slots| && s.slots[p].key == key && !s.slots[p].visited
  }

  /** One step never moves a waiting key further from the hand, and an eviction brings it nearer or takes it. */
  lemma StepWaits(s: Sieve, op: Op, key: Bytes, p: nat) returns (p': nat)
    requires s.Valid() && Waiting(s, key, p)
    requires op != DoTouch(key) && op != DoRemove(key)
    ensures Apply(s, op).Valid()
    ensures !(op == DoEvict && s.slots[VictimIndex(s)].key == key) ==>
              && Waiting(Apply(s, op), key, p')
              && Apply(s, op).Start() - p' <= s.Start() - p - (if op == DoEvict then 1 else 0)
  {
    ApplyValid(s, op);
    hide DistinctKeys;
    match op
    case DoTouch(_) => p' := p;
    case DoAdd(k, _) => p' := if Find(s.slots, k) < |s.slots| then p else p + 1;
    case DoRemove(k) => p' := RemoveWaits(s, k, key, p);
    case DoEvict =>
      p' := p;
      if VictimIndex(s) != p { EvictWaits(s, key, p); }
  }

  lemma RemoveWaits(s: Sieve, k: Bytes, key: Bytes, p: nat) returns (p': nat)
    requires s.Valid() && Waiting(s, key, p) && k != key
    ensures Waiting(Remove(s, k), key, p') && Remove(s, k).Start() - p' <= s.Start() - p
  {
    hide DistinctKeys;
    var i := Find(s.slots, k);
    p' := if i < p then p - 1 else p;
    assert i != p;
  }

  lemma EvictWaits(s: Sieve, key: Bytes, p: nat)
    requires s.Valid() && Waiting(s, key, p) && VictimIndex(s) != p
    ensures Waiting(Evict(s), key, p) && Evict(s).Start() < s.Start()
  {
    hide DistinctKeys;
    UnvisitedIsNearest(s.slots, s.Start());
  }

  /**
   Bounded wait: an unvisited key at or headward of the start is evicted within as many evictions as its
   distance from the start plus one, whatever else is added, removed or touched in between.
   */
  lemma {:induction false} BoundedWait(s: Sieve, ops: seq<Op>, key: Bytes, p: nat)
    requires s.Valid() && Waiting(s, key, p)
    requires DoTouch(key) !in ops && DoRemove(key) !in ops
    requires Evictions(ops) >= s.Start() - p + 1
    ensures TakesKey(s, ops, key)
    decreases |ops|
  {
    var p' := StepWaits(s, ops[0], key, p);
    if !(ops[0] == DoEvict && s.slots[VictimIndex(s)].key == key) {
      BoundedWait(Apply(s, ops[0]), ops[1..], key, p');
    }
  }
}
