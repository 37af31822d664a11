/** Base64 as the append-only file uses it (RFC 4648, section 4). */
module Base64 {
  import opened ByteStrings

  const PAD: Byte := '='

  /** The character of a 6-bit value. */
  function Letter(v: nat): (c: Byte)
    requires v < 64
  {
    if v < 26 then ('A' as int + v) as char
    else if v < 52 then ('a' as int + v - 26) as char
    else if v < 62 then ('0' as int + v - 52) as char
    else if v == 62 then '+' else '/'
  }

  /** The 6-bit value of a character; -2 for padding and -1 for anything else. */
  function LetterValue(c: Byte): (v: int) {
    if 'A' <= c <= 'Z' then c as int - 'A' as int
    else if 'a' <= c <= 'z' then c as int - 'a' as int + 26
    else if '0' <= c <= '9' then c as int - '0' as int + 52
    else if c == '+' then 62
    else if c == '/' then 63
    else if c == PAD then -2
    else -1
  }

  lemma LetterRoundTrip(v: nat, c: Byte)
    requires v < 64
    ensures LetterValue(Letter(v)) == v
    ensures LetterValue(c) >= 0 ==> LetterValue(c) < 64 && Letter(LetterValue(c)) == c
    ensures LetterValue(c) == -2 <==> c == PAD
  {
  }

  /** The letters in the order of their values (RFC 4648, table 1). */
  const CAPITALS: Bytes := "ABCDEFGHIJKLMNOPQRSTUVWXYZ"
  const SMALL: Bytes := "abcdefghijklmnopqrstuvwxyz"
  const DIGITS: Bytes := "0123456789"

  lemma StandardLetters(v: nat)
    requires v < 64
    ensures Letter(v) == if v < 26 then CAPITALS[v] else if v < 52 then SMALL[v - 26]
                         else if v < 62 then DIGITS[v - 52] else if v == 62 then '+' else '/'
  {
  }

  // ---------------------------------------------------------------- group by group

  /** 24 bits as four letters. */
  function Quad(v: nat): (q: Bytes)
    requires v < 0x1000000
    ensures |q| == 4
  {
    [Letter(v / 0x40000 % 64), Letter(v / 0x1000 % 64), Letter(v / 0x40 % 64), Letter(v % 64)]
  }

  function Word(a: Byte, b: Byte, c: Byte): (v: nat)
    ensures v < 0x1000000
  {
    a as int * 0x10000 + b as int * 0x100 + c as int
  }

  function EncodeTail(s: Bytes): Bytes
    requires |s| < 3
  {
    if |s| == 0 then []
    else if |s| == 1 then Quad(Word(s[0], '\0', '\0'))[..2] + [PAD, PAD]
    else Quad(Word(s[0], s[1], '\0'))[..3] + [PAD]
  }

  function Encode(s: Bytes): Bytes
    decreases |s|
  {
    if |s| < 3 then EncodeTail(s) else Quad(Word(s[0], s[1], s[2])) + Encode(s[3..])
  }

  /** One group of four letters, the last of the text or not: up to three bytes, or nothing. */
  function DecodeQuad(q: Bytes, last: bool): Option<Bytes>
    requires |q| == 4
  {
    var a, b, c, d := LetterValue(q[0]), LetterValue(q[1]), LetterValue(q[2]), LetterValue(q[3]);
    if a < 0 || b < 0 || c == -1 || d == -1 then None
    else if c == -2 && (!last || d != -2) then None
    else if c != -2 && d == -2 && !last then None
    else
      var v := a * 0x40000 + b * 0x1000 + (if c < 0 then 0 else c) * 0x40 + (if d < 0 then 0 else d);
      Some([ByteOf(v / 0x10000)] + (if c >= 0 then [ByteOf(v / 0x100)] else []) + if d >= 0 then [ByteOf(v)] else [])
  }

  function ByteOf(v: nat): Byte { (v % 256) as char }

  function Decode(s: Bytes): Option<Bytes>
    decreases |s|
  {
    if s == [] then Some([])
    else if |s| < 4 then None
    else
      match DecodeQuad(s[..4], |s| == 4)
      case None => None
      case Some(head) =>
        match Decode(s[4..])
        case None => None
        case Some(tail) => Some(head + tail)
  }

  // ---------------------------------------------------------------- round trip

  /** Three bytes cut into four 6-bit values. */
  lemma SplitWord(a: nat, b: nat, c: nat, v: nat)
    requires a < 256 && b < 256 && c < 256 && v == a * 0x10000 + b * 0x100 + c
    ensures v / 0x40000 % 64 == a / 4 && v / 0x1000 % 64 == a % 4 * 16 + b / 16
    ensures v / 0x40 % 64 == b % 16 * 4 + c / 64 && v % 64 == c % 64
  {
    SixBitDigits(a / 4, a % 4 * 16 + b / 16, b % 16 * 4 + c / 64, c % 64);
  }

  lemma SixBitDigits(p: nat, q: nat, r: nat, s: nat)
    requires p < 64 && q < 64 && r < 64 && s < 64
    ensures var v := p * 0x40000 + q * 0x1000 + r * 0x40 + s;
            v / 0x40000 % 64 == p && v / 0x1000 % 64 == q && v / 0x40 % 64 == r && v % 64 == s
  {
    var v := p * 0x40000 + q * 0x1000 + r * 0x40 + s;
    assert v / 0x40 == p * 0x1000 + q * 0x40 + r;
    assert v / 0x1000 == p * 0x40 + q;
    assert v / 0x40000 == p;
  }

  /** Four 6-bit values joined into three bytes. */
  lemma JoinWord(p: nat, q: nat, r: nat, s: nat, v: nat)
    requires p < 64 && q < 64 && r < 64 && s < 64 && v == p * 0x40000 + q * 0x1000 + r * 0x40 + s
    ensures v / 0x10000 % 256 == p * 4 + q / 16 && v / 0x100 % 256 == q % 16 * 16 + r / 4 && v % 256 == r % 4 * 64 + s
  {
    assert v / 0x10000 == p * 4 + q / 16;
    assert v / 0x100 == p * 1024 + q * 16 + r / 4 && q * 16 == q / 16 * 256 + q % 16 * 16;
    assert v == p * 0x40000 + q * 0x1000 + r / 4 * 256 + r % 4 * 64 + s;
  }

  /** The four letters of three bytes, byte by byte. */
  lemma QuadLetters(a: Byte, b: Byte, c: Byte)
    ensures Quad(Word(a, b, c)) ==
            [Letter(a as int / 4), Letter(a as int % 4 * 16 + b as int / 16),
             Letter(b as int % 16 * 4 + c as int / 64), Letter(c as int % 64)]
  {
    SplitWord(a as int, b as int, c as int, Word(a, b, c));
  }

  /** The bytes of four letters. */
  lemma DecodeLetters(p: nat, q: nat, r: nat, s: nat, last: bool)
    requires p < 64 && q < 64 && r < 64 && s < 64
    ensures DecodeQuad([Letter(p), Letter(q), Letter(r), Letter(s)], last) ==
            Some([(p * 4 + q / 16) as char, (q % 16 * 16 + r / 4) as char, (r % 4 * 64 + s) as char])
  {
    var v := p * 0x40000 + q * 0x1000 + r * 0x40 + s;
    assert DecodeQuad([Letter(p), Letter(q), Letter(r), Letter(s)], last) ==
           Some([ByteOf(v / 0x10000)] + [ByteOf(v / 0x100)] + [ByteOf(v)])
    by {
      LetterRoundTrip(p, PAD);
      LetterRoundTrip(q, PAD);
      LetterRoundTrip(r, PAD);
      LetterRoundTrip(s, PAD);
      hide LetterValue, Letter;
    }
    hide DecodeQuad, Letter;
    JoinWord(p, q, r, s, v);
    var b0, b1: Byte, b2: Byte := (p * 4 + q / 16) as char, (q % 16 * 16 + r / 4) as char, (r % 4 * 64 + s) as char;
    assert [ByteOf(v / 0x10000)] + [ByteOf(v / 0x100)] + [ByteOf(v)] == [b0, b1, b2];
  }

  /** The bytes of three letters and a padding character. */
  lemma DecodeOnePad(p: nat, q: nat, r: nat)
    requires p < 64 && q < 64 && r < 64
    ensures DecodeQuad([Letter(p), Letter(q), Letter(r), PAD], true) ==
            Some([(p * 4 + q / 16) as char, (q % 16 * 16 + r / 4) as char])
  {
    var v := p * 0x40000 + q * 0x1000 + r * 0x40;
    assert DecodeQuad([Letter(p), Letter(q), Letter(r), PAD], true) ==
           Some([ByteOf(v / 0x10000)] + [ByteOf(v / 0x100)] + [])
    by {
      LetterRoundTrip(p, PAD);
      LetterRoundTrip(q, PAD);
      LetterRoundTrip(r, PAD);
      hide LetterValue, Letter;
    }
    hide DecodeQuad, Letter;
    JoinWord(p, q, r, 0, v);
    var b0, b1: Byte := (p * 4 + q / 16) as char, (q % 16 * 16 + r / 4) as char;
    assert [ByteOf(v / 0x10000)] + [ByteOf(v / 0x100)] + [] == [b0, b1];
  }

  /** The byte of two letters and two padding characters. */
  lemma DecodeTwoPads(p: nat, q: nat)
    requires p < 64 && q < 64
    ensures DecodeQuad([Letter(p), Letter(q), PAD, PAD], true) == Some([(p * 4 + q / 16) as char])
  {
    var v := p * 0x40000 + q * 0x1000;
    assert DecodeQuad([Letter(p), Letter(q), PAD, PAD], true) == Some([ByteOf(v / 0x10000)] + [] + []) by {
      LetterRoundTrip(p, PAD);
      LetterRoundTrip(q, PAD);
      hide LetterValue, Letter;
    }
    hide DecodeQuad, Letter;
    JoinWord(p, q, 0, 0, v);
    assert [ByteOf(v / 0x10000)] + [] + [] == [(p * 4 + q / 16) as char];
  }

  /** Test vectors of RFC 4648, section 10, one for each kind of last group. */
  lemma TestVectors()
    ensures Encode("f") == "Zg==" && Encode("fo") == "Zm8=" && Encode("foo") == "Zm9v" && Encode("foob") == "Zm9vYg=="
  {
    VectorGroups();
    hide Letter, Quad, Word;
    var foo: Bytes := "foo";
    var foob: Bytes := "foob";
    assert foo[3..] == [] && foob[3..] == "b";
    assert Encode(foo) == Quad(Word('f', 'o', 'o')) + Encode([]);
    assert Encode(foob) == Quad(Word('f', 'o', 'o')) + Encode("b");
  }

  lemma VectorGroups()
    ensures Quad(Word('f', 'o', 'o')) == "Zm9v" && Quad(Word('f', 'o', '\0'))[..3] == "Zm8"
    ensures Quad(Word('f', '\0', '\0'))[..2] == "Zg" && Quad(Word('b', '\0', '\0'))[..2] == "Yg"
  {
    hide Quad, Word;
    Group('f', 'o', 'o', 25, 38, 61, 47);
    Group('f', 'o', '\0', 25, 38, 60, 0);
    Group('f', '\0', '\0', 25, 32, 0, 0);
    Group('b', '\0', '\0', 24, 32, 0, 0);
    assert Letter(25) == 'Z' && Letter(24) == 'Y' && Letter(32) == 'g' && Letter(38) == 'm';
    assert Letter(61) == '9' && Letter(60) == '8' && Letter(47) == 'v';
  }

  lemma Group(a: Byte, b: Byte, c: Byte, p: nat, q: nat, r: nat, s: nat)
    requires p == a as int / 4 && q == a as int % 4 * 16 + b as int / 16
    requires r == b as int % 16 * 4 + c as int / 64 && s == c as int % 64
    ensures Quad(Word(a, b, c)) == [Letter(p), Letter(q), Letter(r), Letter(s)]
  {
    QuadLetters(a, b, c);
  }

  lemma Regroup(a: nat, b: nat, c: nat)
    requires a < 256 && b < 256 && c < 256
    ensures var p, q, r, s := a / 4, a % 4 * 16 + b / 16, b % 16 * 4 + c / 64, c % 64;
            p * 4 + q / 16 == a && q % 16 * 16 + r / 4 == b && r % 4 * 64 + s == c
  {
  }

  lemma DecodeEncodedTail(s: Bytes)
    requires 0 < |s| < 3
    ensures DecodeQuad(EncodeTail(s), true) == Some(s)
  {
    hide Letter, DecodeQuad, Quad, Word;
    var a := s[0];
    var b := if |s| == 2 then s[1] else '\0';
    var quad := Quad(Word(a, b, '\0'));
    QuadLetters(a, b, '\0');
    assert quad[..2] + [PAD, PAD] == [quad[0], quad[1], PAD, PAD];
    assert quad[..3] + [PAD] == [quad[0], quad[1], quad[2], PAD];
    assert s == if |s| == 1 then [a] else [a, b];
    Regroup(a as int, b as int, 0);
    DecodeOnePad(a as int / 4, a as int % 4 * 16 + b as int / 16, b as int % 16 * 4);
    DecodeTwoPads(a as int / 4, a as int % 4 * 16 + b as int / 16);
  }

  /** Decoding inverts encoding, for every byte string. */
  lemma {:induction false} DecodeInvertsEncode(s: Bytes)
    ensures Decode(Encode(s)) == Some(s)
    decreases |s|
  {
    hide Letter, DecodeQuad, Quad, Word, EncodeTail;
    if |s| == 0 {
      assert EncodeTail(s) == [] by { EmptyTail(s); }
    } else if |s| < 3 {
      DecodeEncodedTail(s);
      assert |EncodeTail(s)| == 4 by { TailLength(s); }
      assert Encode(s) == EncodeTail(s);
      assert Encode(s)[..4] == Encode(s) && Encode(s)[4..] == [];
      assert s + [] == s;
    } else {
      var a, b, c, rest := s[0] as int, s[1] as int, s[2] as int, Encode(s[3..]);
      var q := Quad(Word(s[0], s[1], s[2]));
      QuadLetters(s[0], s[1], s[2]);
      Regroup(a, b, c);
      DecodeLetters(a / 4, a % 4 * 16 + b / 16, b % 16 * 4 + c / 64, c % 64, |rest| == 0);
      assert Encode(s)[..4] == q && Encode(s)[4..] == rest;
      DecodeInvertsEncode(s[3..]);
      assert s == [s[0], s[1], s[2]] + s[3..];
    }
  }

  lemma EmptyTail(s: Bytes)
    requires s == []
    ensures EncodeTail(s) == []
  {
  }

  lemma TailLength(s: Bytes)
    requires 0 < |s| < 3
    ensures |EncodeTail(s)| == 4
  {
  }

  // ---------------------------------------------------------------- what decodes

  predicate IsLetter(c: Byte) { LetterValue(c) >= 0 }

  /** How many of the last two characters are padding, counted from the end. */
  function PadLength(s: Bytes): (n: nat)
    ensures n <= 2 && n <= |s|
  {
    if |s| == 0 || s[|s| - 1] != PAD then 0
    else if |s| == 1 || s[|s| - 2] != PAD then 1
    else 2
  }

  /** A multiple of four characters, all of them letters but for the padding at the end. */
  predicate WellFormed(s: Bytes) {
    |s| % 4 == 0 && forall i :: 0 <= i < |s| - PadLength(s) ==> IsLetter(s[i])
  }

  lemma QuadDecodes(q: Bytes, last: bool)
    requires |q| == 4
    ensures DecodeQuad(q, last).Some? <==>
            (forall i :: 0 <= i < 4 - (if last then PadLength(q) else 0) ==> IsLetter(q[i]))
  {
    assert IsLetter(q[0]) <==> LetterValue(q[0]) >= 0;
    LetterRoundTrip(0, q[2]);
    LetterRoundTrip(0, q[3]);
    assert !IsLetter(PAD);
  }

  /** Decoding succeeds exactly on four-aligned letters with padding only at the end. */
  lemma {:induction false} DecodesExactlyWellFormed(s: Bytes)
    ensures Decode(s).Some? <==> WellFormed(s)
    decreases |s|
  {
    hide DecodeQuad, IsLetter;
    if |s| >= 4 {
      var q, rest := s[..4], s[4..];
      QuadDecodes(q, |s| == 4);
      DecodesExactlyWellFormed(rest);
      assert forall i :: 0 <= i < |rest| ==> rest[i] == s[i + 4];
      if |s| == 4 {
        assert q == s;
      } else if |rest| % 4 == 0 {
        assert PadLength(s) == PadLength(rest);
        assert (forall i :: 0 <= i < |s| - PadLength(s) ==> IsLetter(s[i])) <==>
               (forall i :: 0 <= i < 4 ==> IsLetter(q[i]))
               && forall i :: 0 <= i < |rest| - PadLength(rest) ==> IsLetter(rest[i]) by { SplitLetters(s); }
      }
    }
  }

  lemma SplitLetters(s: Bytes)
    requires |s| >= 8
    ensures var n := |s| - PadLength(s);
            (forall i :: 0 <= i < n ==> IsLetter(s[i])) <==>
            (forall i :: 0 <= i < 4 ==> IsLetter(s[..4][i])) && forall i :: 0 <= i < n - 4 ==> IsLetter(s[4..][i])
  {
    hide IsLetter;
    var n := |s| - PadLength(s);
    if (forall i :: 0 <= i < 4 ==> IsLetter(s[..4][i])) && forall i :: 0 <= i < n - 4 ==> IsLetter(s[4..][i]) {
      forall i | 0 <= i < n ensures IsLetter(s[i]) {
        if i < 4 { assert s[..4][i] == s[i]; } else { assert s[4..][i - 4] == s[i]; }
      }
    }
  }

  /** The bits of the last letter that no byte uses are zero (RFC 4648, section 3.5). */
  predicate Canonical(s: Bytes)
    requires WellFormed(s)
  {
    && (PadLength(s) == 1 ==> LetterValue(s[|s| - 2]) % 4 == 0)
    && (PadLength(s) == 2 ==> LetterValue(s[|s| - 3]) % 16 == 0)
  }

  lemma LetterInjective(v: nat, w: nat)
    requires v < 64 && w < 64
    ensures Letter(v) == Letter(w) <==> v == w
  {
    LetterRoundTrip(v, PAD);
    LetterRoundTrip(w, PAD);
  }

  /** Full groups re-encode to themselves; in a short one the bits no byte uses come back as zero. */
  lemma Reencode(p: nat, q: nat, r: nat, s: nat)
    requires p < 64 && q < 64 && r < 64 && s < 64
    ensures var a: Byte, b: Byte := (p * 4 + q / 16) as char, (q % 16 * 16 + r / 4) as char;
            var c: Byte := (r % 4 * 64 + s) as char;
            && Quad(Word(a, b, c)) == [Letter(p), Letter(q), Letter(r), Letter(s)]
            && EncodeTail([a, b]) == [Letter(p), Letter(q), Letter(r - r % 4), PAD]
            && EncodeTail([a]) == [Letter(p), Letter(q - q % 16), PAD, PAD]
  {
    hide Letter, Quad, Word;
    var x, y, z := p * 4 + q / 16, q % 16 * 16 + r / 4, r % 4 * 64 + s;
    var a: Byte, b: Byte, c: Byte := x as char, y as char, z as char;
    assert x / 4 == p && x % 4 * 16 == q - q % 16 && x % 4 * 16 + y / 16 == q;
    assert y % 16 * 4 == r - r % 4 && y % 16 * 4 + z / 64 == r && z % 64 == s;
    QuadLetters(a, b, c);
    QuadLetters(a, b, '\0');
    QuadLetters(a, '\0', '\0');
    ShortTails(a, b);
  }

  lemma ShortTails(a: Byte, b: Byte)
    ensures var quad := Quad(Word(a, b, '\0')); EncodeTail([a, b]) == [quad[0], quad[1], quad[2], PAD]
    ensures var quad := Quad(Word(a, '\0', '\0')); EncodeTail([a]) == [quad[0], quad[1], PAD, PAD]
  {
    hide Quad, Word;
  }

  /** Re-encoding what one group decodes to. */
  ghost predicate Reencodes(t: Bytes, last: bool)
    requires |t| == 4 && DecodeQuad(t, last).Some? && WellFormed(t)
  {
    var d := DecodeQuad(t, last).value;
    && |d| == 3 - (if last then PadLength(t) else 0)
    && (|d| == 3 ==> Quad(Word(d[0], d[1], d[2])) == t)
    && (|d| < 3 ==> (EncodeTail(d) == t <==> Canonical(t)))
  }

  lemma LettersReencode(p: nat, q: nat, r: nat, s: nat, last: bool)
    requires p < 64 && q < 64 && r < 64 && s < 64
    requires var t := [Letter(p), Letter(q), Letter(r), Letter(s)]; DecodeQuad(t, last).Some? && WellFormed(t)
    ensures Reencodes([Letter(p), Letter(q), Letter(r), Letter(s)], last)
  {
    LetterRoundTrip(s, PAD);
    hide LetterValue, Letter, Quad, Word, DecodeQuad, EncodeTail;
    DecodeLetters(p, q, r, s, last);
    Reencode(p, q, r, s);
  }

  lemma OnePadReencodes(p: nat, q: nat, r: nat)
    requires p < 64 && q < 64 && r < 64
    requires var t := [Letter(p), Letter(q), Letter(r), PAD]; DecodeQuad(t, true).Some? && WellFormed(t)
    ensures Reencodes([Letter(p), Letter(q), Letter(r), PAD], true)
  {
    OnePadCanonical(p, q, r);
    hide LetterValue, Letter, Quad, Word, DecodeQuad, EncodeTail, Canonical, WellFormed;
    DecodeOnePad(p, q, r);
    Reencode(p, q, r, 0);
  }

  /** The unused bits of a group's last letter are zero when clearing them changes nothing. */
  lemma OnePadCanonical(p: nat, q: nat, r: nat)
    requires p < 64 && q < 64 && r < 64
    ensures var t := [Letter(p), Letter(q), Letter(r), PAD];
            && PadLength(t) == 1
            && (WellFormed(t) ==> (Canonical(t) <==> t == [Letter(p), Letter(q), Letter(r - r % 4), PAD]))
  {
    LetterRoundTrip(r, PAD);
    hide LetterValue, Letter, WellFormed;
    LetterInjective(r - r % 4, r);
  }

  lemma TwoPadsReencode(p: nat, q: nat)
    requires p < 64 && q < 64
    requires var t := [Letter(p), Letter(q), PAD, PAD]; DecodeQuad(t, true).Some? && WellFormed(t)
    ensures Reencodes([Letter(p), Letter(q), PAD, PAD], true)
  {
    TwoPadsCanonical(p, q);
    hide LetterValue, Letter, Quad, Word, DecodeQuad, EncodeTail, Canonical, WellFormed;
    DecodeTwoPads(p, q);
    Reencode(p, q, 0, 0);
  }

  lemma TwoPadsCanonical(p: nat, q: nat)
    requires p < 64 && q < 64
    ensures var t := [Letter(p), Letter(q), PAD, PAD];
            && PadLength(t) == 2
            && (WellFormed(t) ==> (Canonical(t) <==> t == [Letter(p), Letter(q - q % 16), PAD, PAD]))
  {
    LetterRoundTrip(q, PAD);
    hide LetterValue, Letter, WellFormed;
    LetterInjective(q - q % 16, q);
  }

  lemma QuadReencodes(t: Bytes, last: bool)
    requires |t| == 4 && DecodeQuad(t, last).Some?
    ensures WellFormed(t) && Reencodes(t, last)
  {
    QuadShape(t, last);
    assert WellFormed(t) by { QuadDecodes(t, last); }
    var p, q, r, s := LetterValue(t[0]), LetterValue(t[1]), LetterValue(t[2]), LetterValue(t[3]);
    LetterRoundTrip(0, t[0]);
    LetterRoundTrip(0, t[1]);
    LetterRoundTrip(0, t[2]);
    LetterRoundTrip(0, t[3]);
    hide LetterValue, Letter, DecodeQuad, Reencodes, WellFormed;
    if t[3] != PAD {
      assert t == [Letter(p), Letter(q), Letter(r), Letter(s)];
      LettersReencode(p, q, r, s, last);
    } else if t[2] != PAD {
      assert t == [Letter(p), Letter(q), Letter(r), PAD];
      OnePadReencodes(p, q, r);
    } else {
      assert t == [Letter(p), Letter(q), PAD, PAD];
      TwoPadsReencode(p, q);
    }
  }

  predicate IsShort(t: Bytes, last: bool)
    requires |t| == 4
  {
    && (t[2] == PAD ==> t[3] == PAD) && (t[3] == PAD ==> last)
    && (t[2] != PAD ==> IsLetter(t[2])) && (t[3] != PAD ==> IsLetter(t[3]))
  }

  lemma QuadShape(t: Bytes, last: bool)
    requires |t| == 4 && DecodeQuad(t, last).Some?
    ensures IsShort(t, last) && IsLetter(t[0]) && IsLetter(t[1])
  {
    LetterRoundTrip(0, t[2]);
    LetterRoundTrip(0, t[3]);
  }

  /** A group that is not the last says nothing about what is canonical. */
  lemma LaterGroups(s: Bytes)
    requires WellFormed(s) && |s| > 4
    ensures WellFormed(s[4..]) && (Canonical(s) <==> Canonical(s[4..]))
  {
    hide IsLetter, LetterValue;
    var rest := s[4..];
    assert forall i :: 0 <= i < |rest| ==> rest[i] == s[i + 4];
    assert PadLength(s) == PadLength(rest);
  }

  lemma LastGroup(s: Bytes)
    requires WellFormed(s) && |s| == 4
    ensures Decode(s).Some? && (Encode(Decode(s).value) == s <==> Canonical(s))
  {
    hide DecodeQuad, IsLetter, LetterValue, Quad, Word, WellFormed, Canonical, EncodeTail;
    assert s[..4] == s && s[4..] == [];
    DecodesExactlyWellFormed(s);
    QuadReencodes(s, true);
    var d := DecodeQuad(s, true).value;
    assert d + [] == d && Decode(s) == Some(d);
    if |d| == 3 {
      assert d[3..] == [] && Encode([]) == EncodeTail([]);
      EmptyTail([]);
      assert Encode(d) == s;
      assert Canonical(s) by { UnpaddedIsCanonical(s); }
    }
  }

  lemma UnpaddedIsCanonical(s: Bytes)
    requires WellFormed(s) && PadLength(s) == 0
    ensures Canonical(s)
  {
  }

  lemma SameFront(a: Bytes, b: Bytes, c: Bytes)
    ensures a + b == a + c <==> b == c
  {
    assert (a + b)[|a|..] == b && (a + c)[|a|..] == c;
  }

  /** Encoding inverts decoding exactly on canonical text. */
  lemma {:induction false} EncodeInvertsDecode(s: Bytes)
    requires WellFormed(s)
    ensures Decode(s).Some?
    ensures Encode(Decode(s).value) == s <==> Canonical(s)
    decreases |s|
  {
    hide DecodeQuad, IsLetter, LetterValue, Quad, Word, Canonical, EncodeTail;
    DecodesExactlyWellFormed(s);
    if |s| == 4 {
      LastGroup(s);
    } else if |s| > 4 {
      var q, rest := s[..4], s[4..];
      QuadReencodes(q, false);
      var d := DecodeQuad(q, false).value;
      LaterGroups(s);
      EncodeInvertsDecode(rest);
      var t := Decode(rest).value;
      assert (d + t)[3..] == t && s == q + rest;
      assert Encode(d + t) == q + Encode(t);
      SameFront(q, Encode(t), rest);
    } else {
      assert Canonical(s) by { UnpaddedIsCanonical(s); }
      EmptyTail([]);
    }
  }

  // ---------------------------------------------------------------- the loops

  method Base64Encode(input: Bytes) returns (out: Bytes)
    ensures out == Encode(input)
  {
    out := [];
    var i := 0;
    assert input[0..] == input;
    while i + 3 <= |input|
      invariant 0 <= i <= |input| && out + Encode(input[i..]) == Encode(input)
    {
      ghost var rest := input[i..];
      var v := input[i] as int * 0x10000 + input[i + 1] as int * 0x100 + input[i + 2] as int;
      assert rest[3..] == input[i + 3..];
      out := out + Quad(v);
      i := i + 3;
    }
    var remaining := |input| - i;
    assert Encode(input[i..]) == EncodeTail(input[i..]);
    if remaining == 1 {
      var q := Quad(input[i] as int * 0x10000);
      out := out + q[..2] + [PAD, PAD];
    } else if remaining == 2 {
      var q := Quad(input[i] as int * 0x10000 + input[i + 1] as int * 0x100);
      out := out + q[..3] + [PAD];
    }
  }

  lemma Unaligned(s: Bytes)
    requires |s| % 4 != 0
    ensures !WellFormed(s)
  {
  }

  method Base64Decode(input: Bytes) returns (ok: bool, output: Bytes)
    ensures ok <==> Decode(input).Some?
    ensures ok ==> output == Decode(input).value
  {
    hide WellFormed, DecodeQuad;
    output := [];
    DecodesExactlyWellFormed(input);
    if |input| % 4 != 0 {
      assert !WellFormed(input) by { Unaligned(input); }
      return false, [];
    }
    assert input[0..] == input;
    assert Decode(input).Some? ==> [] + Decode(input).value == Decode(input).value;
    var i := 0;
    while i < |input|
      invariant 0 <= i <= |input| && (|input| - i) % 4 == 0
      invariant Decode(input) ==
                match Decode(input[i..]) { case None => None case Some(tail) => Some(output + tail) }
    {
      ghost var rest := input[i..];
      ghost var before := output;
      assert rest[4..] == input[i + 4..];
      var last := i + 4 == |input|;
      var head := DecodeQuad(input[i..i + 4], last);
      assert input[i..i + 4] == rest[..4];
      if head.None? {
        return false, output;
      }
      output := output + head.value;
      i := i + 4;
      assert Decode(rest[4..]).Some? ==>
               before + (head.value + Decode(rest[4..]).value) == output + Decode(rest[4..]).value;
    }
    assert input[i..] == [] && output + [] == output;
    return true, output;
  }
}
