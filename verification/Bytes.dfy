/** Byte strings: a C++ `char` is a byte, and a `std::string` is a sequence of them. */
module ByteStrings {

  type Byte = c: char | c as int < 256 witness '\0'
  type Bytes = seq<Byte>

  const CRLF: Bytes := "\r\n"

  datatype Option<+T> = None | Some(value: T)

  /** `toupper` in the C locale. */
  function ToUpper(c: Byte): Byte {
    if 'a' <= c <= 'z' then (c as int - 32) as char else c
  }

  /** `tolower` in the C locale. */
  function ToLower(c: Byte): Byte {
    if 'A' <= c <= 'Z' then (c as int + 32) as char else c
  }

  function Upper(s: Bytes): (r: Bytes) {
    seq(|s|, i requires 0 <= i < |s| => ToUpper(s[i]))
  }

  function Lower(s: Bytes): (r: Bytes) {
    seq(|s|, i requires 0 <= i < |s| => ToLower(s[i]))
  }

  /** The letters of `name`, which is in capitals, each in either case. */
  predicate Spells(text: Bytes, name: Bytes) {
    && |text| == |name|
    && forall i :: 0 <= i < |name| ==> text[i] == name[i] || text[i] as int == name[i] as int + 32
  }

  lemma UpperSpells(text: Bytes, name: Bytes)
    requires forall i :: 0 <= i < |name| ==> 'A' <= name[i] <= 'Z'
    ensures Upper(text) == name <==> Spells(text, name)
  {
    if Upper(text) == name {
      forall i | 0 <= i < |name| ensures text[i] == name[i] || text[i] as int == name[i] as int + 32 {
        assert Upper(text)[i] == name[i];
      }
    }
  }

  lemma LowerSpells(text: Bytes, name: Bytes)
    requires forall i :: 0 <= i < |name| ==> 'A' <= name[i] <= 'Z'
    ensures Lower(text) == Lower(name) <==> Spells(text, name)
  {
    if Lower(text) == Lower(name) {
      assert |Lower(text)| == |text| && |Lower(name)| == |name|;
      forall i | 0 <= i < |name| ensures text[i] == name[i] || text[i] as int == name[i] as int + 32 {
        assert Lower(text)[i] == Lower(name)[i];
      }
    }
  }

  /** An ASCII message as bytes. */
  function Ascii(s: string): Bytes {
    seq(|s|, i requires 0 <= i < |s| => if s[i] as int < 256 then s[i] else '?')
  }

  /** The concatenation of a sequence of strings. */
  function Concat(parts: seq<Bytes>): Bytes {
    if parts == [] then [] else parts[0] + Concat(parts[1..])
  }

  lemma {:induction false} ConcatAppend(a: seq<Bytes>, b: seq<Bytes>)
    ensures Concat(a + b) == Concat(a) + Concat(b)
  {
    if a == [] {
      assert a + b == b;
    } else {
      assert (a + b)[0] == a[0] && (a + b)[1..] == a[1..] + b;
      ConcatAppend(a[1..], b);
    }
  }

  lemma ConcatSnoc(a: seq<Bytes>, x: Bytes)
    ensures Concat(a + [x]) == Concat(a) + x
  {
    ConcatAppend(a, [x]);
    assert [x][1..] == [];
    assert Concat([x]) == x + Concat([]);
  }
}

/** Unsigned decimal numerals: `std::to_string` and its inverse. */
module Decimal {
  import opened ByteStrings

  predicate IsDigit(c: Byte) { '0' <= c <= '9' }

  function DigitValue(c: Byte): (d: nat)
    requires IsDigit(c)
    ensures d < 10
  {
    c as int - '0' as int
  }

  function Digit(d: nat): (c: Byte)
    requires d < 10
    ensures IsDigit(c) && DigitValue(c) == d
  {
    (d + '0' as int) as char
  }

  predicate AllDigits(s: Bytes) { forall i :: 0 <= i < |s| ==> IsDigit(s[i]) }

  /** The number a digit string denotes, most significant digit first. */
  function Value(s: Bytes): nat
    requires AllDigits(s)
  {
    if s == [] then 0 else Value(s[..|s| - 1]) * 10 + DigitValue(s[|s| - 1])
  }

  /** Digits count by their place: the first is worth the highest power of ten. */
  lemma {:induction false} ValueByPlace(s: Bytes)
    requires AllDigits(s) && s != []
    ensures Value(s) == DigitValue(s[0]) * Pow10(|s| - 1) + Value(s[1..])
    decreases |s|
  {
    var k := |s| - 1;
    if k == 0 {
      assert s[..0] == [] && s[1..] == [];
    } else {
      ValueByPlace(s[..k]);
      assert s[1..][..k - 1] == s[..k][1..] && s[1..][k - 1] == s[k];
      assert Pow10(k) == 10 * Pow10(k - 1);
    }
  }

  /** The shortest numeral of `n`, as `std::to_string` prints it. */
  function Print(n: nat): (s: Bytes)
    ensures |s| >= 1 && AllDigits(s)
  {
    if n < 10 then [Digit(n)] else Print(n / 10) + [Digit(n % 10)]
  }

  lemma {:induction false} ValueOfPrint(n: nat)
    ensures Value(Print(n)) == n
  {
    var s := Print(n);
    if n < 10 {
      assert s[..|s| - 1] == [];
      assert Value(s) == Value([]) * 10 + DigitValue(s[0]);
    } else {
      ValueOfPrint(n / 10);
      assert s[..|s| - 1] == Print(n / 10);
    }
  }

  function Pow10(k: nat): nat { if k == 0 then 1 else 10 * Pow10(k - 1) }

  /** A value below 10^k is printed in at most k digits, and only such a value is. */
  lemma {:induction false} PrintLength(n: nat, k: nat)
    requires k >= 1
    ensures |Print(n)| <= k <==> n < Pow10(k)
  {
    if k == 1 {
      assert Pow10(1) == 10 * Pow10(0) == 10;
      if n >= 10 { assert |Print(n / 10)| >= 1; }
    } else if n < 10 {
      Pow10AtLeast(k);
    } else {
      PrintLength(n / 10, k - 1);
      assert n / 10 < Pow10(k - 1) <==> n < 10 * Pow10(k - 1);
    }
  }

  lemma {:induction false} Pow10AtLeast(k: nat)
    requires k >= 1
    ensures Pow10(k) >= 10
  {
    if k == 1 { assert Pow10(0) == 1; } else { Pow10AtLeast(k - 1); }
  }

  /** A k-digit string denotes a number below 10^k. */
  lemma {:induction false} ValueBound(s: Bytes)
    requires AllDigits(s)
    ensures Value(s) < Pow10(|s|)
  {
    if s != [] { ValueBound(s[..|s| - 1]); }
  }
}
