/** Sequences used as lists: positions, removal and weights. */
module Sequences {

  /** Where `x` first occurs in `s`, or `|s|`. */
  function Position<T(==)>(s: seq<T>, x: T): (i: nat)
    ensures i <= |s|
    ensures i < |s| ==> s[i] == x
    ensures forall j :: 0 <= j < i ==> s[j] != x
    ensures i < |s| <==> x in s
  {
    if s == [] then 0 else if s[0] == x then 0 else 1 + Position(s[1..], x)
  }

  /** `s` without its element at `i`; all of `s` when there is none. */
  function Erase<T>(s: seq<T>, i: nat): seq<T> {
    if i < |s| then s[..i] + s[i + 1..] else s
  }

  lemma EraseMembers<T>(s: seq<T>, i: nat)
    requires Distinct(s) && i < |s|
    ensures forall x :: x in Erase(s, i) <==> x in s && x != s[i]
  {
    var s' := Erase(s, i);
    forall x | x in s && x != s[i] ensures x in s' {
      var j :| 0 <= j < |s| && s[j] == x;
      assert s'[if j < i then j else j - 1] == x;
    }
    forall x | x in s' ensures x in s && x != s[i] {
      var j :| 0 <= j < |s'| && s'[j] == x;
      assert s[if j < i then j else j + 1] == x;
    }
  }

  ghost predicate Distinct<T>(s: seq<T>) {
    forall i, j :: 0 <= i < j < |s| ==> s[i] != s[j]
  }

  lemma EraseDistinct<T>(s: seq<T>, i: nat)
    requires Distinct(s)
    ensures Distinct(Erase(s, i))
  {
    var s' := Erase(s, i);
    assert i < |s| ==> forall j :: 0 <= j < |s'| ==> s'[j] == s[if j < i then j else j + 1];
  }

  lemma PositionIs<T>(s: seq<T>, i: nat)
    requires Distinct(s) && i < |s|
    ensures Position(s, s[i]) == i
  {
  }

  function Map<S, T>(f: S -> T, s: seq<S>): seq<T> {
    seq(|s|, i requires 0 <= i < |s| => f(s[i]))
  }

  /** The sum of `weight` over the elements of `s`. */
  function Sum<T>(weight: T -> nat, s: seq<T>): nat {
    if s == [] then 0 else weight(s[0]) + Sum(weight, s[1..])
  }

  lemma {:induction false} SumConcat<T>(weight: T -> nat, a: seq<T>, b: seq<T>)
    ensures Sum(weight, a + b) == Sum(weight, a) + Sum(weight, b)
  {
    if a == [] {
      assert a + b == b;
    } else {
      assert (a + b)[0] == a[0] && (a + b)[1..] == a[1..] + b;
      SumConcat(weight, a[1..], b);
    }
  }

  lemma SumErase<T>(weight: T -> nat, s: seq<T>, i: nat)
    requires i < |s|
    ensures Sum(weight, s) == weight(s[i]) + Sum(weight, Erase(s, i))
  {
    assert s == s[..i] + s[i..] && s[i..][0] == s[i] && s[i..][1..] == s[i + 1..];
    SumConcat(weight, s[..i], s[i..]);
    SumConcat(weight, s[..i], s[i + 1..]);
  }

  lemma SumUpdate<T>(weight: T -> nat, s: seq<T>, i: nat, x: T)
    requires i < |s|
    ensures Sum(weight, s[i := x]) + weight(s[i]) == Sum(weight, s) + weight(x)
  {
    SumErase(weight, s, i);
    SumErase(weight, s[i := x], i);
    assert Erase(s[i := x], i) == Erase(s, i);
  }
}

/** The sum of a weight over the entries of a map. */
module MapSums {
  ghost function SumMap<K, V>(weight: (K, V) -> nat, m: map<K, V>): nat
    decreases |m|
  {
    if m == map[] then 0
    else
      var k :| k in m;
      weight(k, m[k]) + SumMap(weight, m - {k})
  }

  /** Any key may be counted first. */
  lemma {:induction false} SumMapRemove<K, V>(weight: (K, V) -> nat, m: map<K, V>, k: K)
    requires k in m
    ensures SumMap(weight, m) == weight(k, m[k]) + SumMap(weight, m - {k})
    decreases |m|
  {
    var first :| first in m && SumMap(weight, m) == weight(first, m[first]) + SumMap(weight, m - {first});
    if first != k {
      SumMapRemove(weight, m - {first}, k);
      SumMapRemove(weight, m - {k}, first);
      assert m - {first} - {k} == m - {k} - {first};
    }
  }

  lemma SumMapAdd<K, V>(weight: (K, V) -> nat, m: map<K, V>, k: K, v: V)
    ensures SumMap(weight, m[k := v]) == weight(k, v) + SumMap(weight, m - {k})
  {
    SumMapRemove(weight, m[k := v], k);
    assert m[k := v] - {k} == m - {k};
  }

  lemma SumMapInsert<K, V>(weight: (K, V) -> nat, m: map<K, V>, k: K, v: V)
    requires k !in m
    ensures SumMap(weight, m[k := v]) == weight(k, v) + SumMap(weight, m)
  {
    SumMapAdd(weight, m, k, v);
    assert m - {k} == m;
  }

  /** Two maps with the same keys and the same weights have the same sum. */
  lemma {:induction false} SumMapSame<K, V, W>(weight: (K, V) -> nat, m: map<K, V>,
                                               weight': (K, W) -> nat, m': map<K, W>)
    requires m.Keys == m'.Keys && forall k :: k in m ==> weight(k, m[k]) == weight'(k, m'[k])
    ensures SumMap(weight, m) == SumMap(weight', m')
    decreases |m|
  {
    if m == map[] {
      assert m' == map[];
    } else {
      var k :| k in m;
      SumMapRemove(weight, m, k);
      SumMapRemove(weight', m', k);
      SumMapSame(weight, m - {k}, weight', m' - {k});
    }
  }
}
