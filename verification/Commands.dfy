/** The options of SET. */
module SetOptions {
  import opened ByteStrings
  import opened Decimal

  const INT_MAX: int := 0x7fff_ffff
  const INT_MIN: int := -0x8000_0000

  predicate HasSign(text: Bytes) { text != [] && (text[0] == '-' || text[0] == '+') }

  /** The digits of an optionally signed numeral. */
  function Digits(text: Bytes): Bytes { if HasSign(text) then text[1..] else text }

  /** A 32-bit integer in decimal, or nothing. */
  function IntOf(text: Bytes): Option<int> {
    if Digits(text) == [] || !AllDigits(Digits(text)) then None
    else
      var n: int := Value(Digits(text));
      var signed := if text[0] == '-' then -n else n;
      if INT_MIN <= signed <= INT_MAX then Some(signed) else None
  }

  lemma NoDigits(s: Bytes)
    ensures AllDigits(s[..0]) && Value(s[..0]) == 0
  {
  }

  /** One digit more, or none if it is no digit. */
  lemma NextDigit(s: Bytes, k: nat)
    requires k < |s| && AllDigits(s[..k])
    ensures !IsDigit(s[k]) ==> !AllDigits(s)
    ensures IsDigit(s[k]) ==> AllDigits(s[..k + 1]) && Value(s[..k + 1]) == Value(s[..k]) * 10 + DigitValue(s[k])
  {
    assert s[..k + 1][..k] == s[..k];
    assert forall i :: 0 <= i < k ==> s[..k + 1][i] == s[..k][i];
  }

  method ParseInt(text: Bytes) returns (r: Option<int>)
    ensures r == IntOf(text)
  {
    if text == [] {
      return None;
    }
    var start := if text[0] == '-' || text[0] == '+' then 1 else 0;
    if start == |text| {
      return None;
    }
    ghost var digits := Digits(text);
    assert text[start..] == digits;
    hide Digits, AllDigits, Value;
    var v: int := 0;
    NoDigits(digits);
    for i := start to |text|
      invariant AllDigits(digits[..i - start]) && v == Value(digits[..i - start])
    {
      NextDigit(digits, i - start);
      if !IsDigit(text[i]) {
        return None;
      }
      v := v * 10 + DigitValue(text[i]);
    }
    assert digits[..|digits|] == digits;
    var signed := if text[0] == '-' then -v else v;
    return if INT_MIN <= signed <= INT_MAX then Some(signed) else None;
  }

  datatype Options = Ttl(seconds: int) | SyntaxError | BadExpire | Unsupported(option: Bytes)

  predicate IsExpiry(option: Bytes) { Lower(option) == "ex" || Lower(option) == "px" }

  /** Whole seconds of an EX or PX amount; milliseconds are rounded up. */
  function Seconds(option: Bytes, amount: int): int {
    if Lower(option) == "px" then amount / 1000 + (if amount % 1000 != 0 then 1 else 0) else amount
  }

  /** EX and PX pairs, each replacing the deadline of the one before. */
  function ReadPairs(options: seq<Bytes>, ttl: int): Options {
    if options == [] then Ttl(ttl)
    else if !IsExpiry(options[0]) then Unsupported(options[0])
    else if |options| == 1 then SyntaxError
    else match IntOf(options[1])
      case None => BadExpire
      case Some(amount) => if amount <= 0 then BadExpire else ReadPairs(options[2..], Seconds(options[0], amount))
  }

  /** What the arguments after the value say; a bare integer first is a deadline in seconds. */
  function ReadOptions(options: seq<Bytes>): Options {
    if options != [] && !IsExpiry(options[0]) && IntOf(options[0]).Some?
    then ReadPairs(options[1..], IntOf(options[0]).value)
    else ReadPairs(options, 0)
  }

  /** The option loop. `args` are all the arguments of SET; the options start at index 2. */
  method ScanOptions(args: seq<Bytes>) returns (r: Options)
    requires |args| >= 2
    ensures r == ReadOptions(args[2..])
  {
    var ttl, sawExpiry, k := 0, false, 2;
    ghost var goal := ReadOptions(args[2..]);
    while k < |args|
      invariant 2 <= k <= |args| && (k == 2 ==> !sawExpiry && ttl == 0)
      invariant k > 2 ==> goal == ReadPairs(args[k..], ttl)
      decreases |args| - k
    {
      ghost var rest := args[k..];
      var option := args[k];
      if IsExpiry(option) {
        if k + 1 >= |args| {
          return SyntaxError;
        }
        var amount := ParseInt(args[k + 1]);
        if amount.None? || amount.value <= 0 {
          return BadExpire;
        }
        ttl, sawExpiry := Seconds(option, amount.value), true;
        assert rest[2..] == args[k + 2..];
        k := k + 2;
        continue;
      }
      var legacy := ParseInt(option);
      if k == 2 && !sawExpiry && legacy.Some? {
        ttl := legacy.value;
        assert rest[1..] == args[k + 1..];
        k := k + 1;
        continue;
      }
      return Unsupported(option);
    }
    assert args[k..] == [];
    return Ttl(ttl);
  }

  // ---------------------------------------------------------------- what is accepted

  /** EX or PX with its amount. */
  datatype Expiry = Expiry(option: Bytes, amount: Bytes)

  predicate IsGood(e: Expiry) { IsExpiry(e.option) && IntOf(e.amount).Some? && IntOf(e.amount).value > 0 }

  function Flatten(es: seq<Expiry>): seq<Bytes> {
    if es == [] then [] else [es[0].option, es[0].amount] + Flatten(es[1..])
  }

  /** The deadline the pairs leave: that of the last, or the one before them. */
  function LastTtl(es: seq<Expiry>, before: int): int
    requires forall i :: 0 <= i < |es| ==> IsGood(es[i])
  {
    if es == [] then before
    else
      assert IsGood(es[|es| - 1]);
      Seconds(es[|es| - 1].option, IntOf(es[|es| - 1].amount).value)
  }

  lemma {:induction false} PairsAccepted(es: seq<Expiry>, ttl: int)
    requires forall i :: 0 <= i < |es| ==> IsGood(es[i])
    ensures ReadPairs(Flatten(es), ttl) == Ttl(LastTtl(es, ttl))
    decreases |es|
  {
    if es != [] {
      hide IsExpiry, IntOf, Seconds;
      var e := es[0];
      assert IsGood(e) && forall i :: 0 <= i < |es[1..]| ==> es[1..][i] == es[i + 1];
      assert Flatten(es)[0] == e.option && Flatten(es)[1] == e.amount && Flatten(es)[2..] == Flatten(es[1..]);
      PairsAccepted(es[1..], Seconds(e.option, IntOf(e.amount).value));
    }
  }

  lemma {:induction false} AcceptedPairs(options: seq<Bytes>, ttl: int) returns (es: seq<Expiry>)
    requires ReadPairs(options, ttl).Ttl?
    ensures options == Flatten(es) && forall i :: 0 <= i < |es| ==> IsGood(es[i])
    decreases |options|
  {
    if options == [] {
      es := [];
    } else {
      var later := AcceptedPairs(options[2..], Seconds(options[0], IntOf(options[1]).value));
      es := [Expiry(options[0], options[1])] + later;
      assert es[1..] == later;
      assert options == [options[0], options[1]] + options[2..];
    }
  }

  /**
   SET's options are accepted exactly when they are at most one leading integer followed by EX and PX pairs with
   positive amounts; the deadline is the last pair's, else the integer, else none.
   */
  lemma OptionsAccepted(options: seq<Bytes>, ttl: int)
    ensures ReadOptions(options) == Ttl(ttl) <==>
            exists lead: seq<Bytes>, es: seq<Expiry> :: AcceptedAs(options, lead, es, ttl)
  {
    hide ReadOptions, AcceptedAs;
    if ReadOptions(options) == Ttl(ttl) {
      var lead, es := AcceptedForm(options, ttl);
    }
    if exists lead: seq<Bytes>, es: seq<Expiry> :: AcceptedAs(options, lead, es, ttl) {
      var lead: seq<Bytes>, es: seq<Expiry> :| AcceptedAs(options, lead, es, ttl);
      FormAccepted(options, lead, es, ttl);
    }
  }

  lemma AcceptedForm(options: seq<Bytes>, ttl: int) returns (lead: seq<Bytes>, es: seq<Expiry>)
    requires ReadOptions(options) == Ttl(ttl)
    ensures AcceptedAs(options, lead, es, ttl)
  {
    hide IsExpiry, IntOf, Seconds, LastTtl, ReadPairs, Flatten, IsGood;
    if options != [] && !IsExpiry(options[0]) && IntOf(options[0]).Some? {
      lead := options[..1];
      es := AcceptedPairs(options[1..], IntOf(options[0]).value);
      PairsAccepted(es, IntOf(options[0]).value);
      assert options == lead + options[1..] && lead[0] == options[0];
    } else {
      lead := [];
      es := AcceptedPairs(options, 0);
      PairsAccepted(es, 0);
      assert options == lead + options;
    }
  }

  lemma FormAccepted(options: seq<Bytes>, lead: seq<Bytes>, es: seq<Expiry>, ttl: int)
    requires AcceptedAs(options, lead, es, ttl)
    ensures ReadOptions(options) == Ttl(ttl)
  {
    hide IsExpiry, IntOf, Seconds, LastTtl, ReadPairs, Flatten, IsGood;
    if lead == [] {
      assert options == Flatten(es);
      PairsAccepted(es, 0);
      NotLegacy(es);
    } else {
      NotExpiry(lead[0]);
      assert options[0] == lead[0] && options[1..] == Flatten(es);
      PairsAccepted(es, IntOf(lead[0]).value);
    }
  }

  /** EX and PX pairs do not start with an integer. */
  lemma NotLegacy(es: seq<Expiry>)
    requires forall i :: 0 <= i < |es| ==> IsGood(es[i])
    ensures Flatten(es) != [] ==> IsExpiry(Flatten(es)[0])
  {
    if es != [] { assert IsGood(es[0]); }
  }

  ghost predicate AcceptedAs(options: seq<Bytes>, lead: seq<Bytes>, es: seq<Expiry>, ttl: int) {
    && options == lead + Flatten(es) && |lead| <= 1
    && (forall i :: 0 <= i < |es| ==> IsGood(es[i]))
    && (lead != [] ==> IntOf(lead[0]).Some?)
    && ttl == LastTtl(es, if lead == [] then 0 else IntOf(lead[0]).value)
  }

  lemma NotExpiry(text: Bytes)
    requires IntOf(text).Some?
    ensures !IsExpiry(text)
  {
    assert IsDigit(Digits(text)[|Digits(text)| - 1]);
    assert Lower(text)[|text| - 1] == ToLower(text[|text| - 1]);
  }

  /** EX and PX in either case are the options with an amount. */
  lemma ExpiryMeans(option: Bytes)
    ensures IsExpiry(option) <==> Spells(option, "EX") || Spells(option, "PX")
    ensures (Lower(option) == "ex" <==> Spells(option, "EX")) && (Lower(option) == "px" <==> Spells(option, "PX"))
  {
    LowerSpells(option, "EX");
    LowerSpells(option, "PX");
    assert Lower("EX") == "ex" && Lower("PX") == "px";
  }

  /**
   EX counts seconds; PX counts milliseconds, rounded up to the next whole second, so a positive amount never means no
   expiry.
   */
  lemma SecondsMean(option: Bytes, amount: int)
    requires IsExpiry(option) && amount > 0
    ensures Spells(option, "EX") ==> Seconds(option, amount) == amount
    ensures Spells(option, "PX") ==> (Seconds(option, amount) - 1) * 1000 < amount <= Seconds(option, amount) * 1000
    ensures Seconds(option, amount) >= 1
  {
    ExpiryMeans(option);
    hide Spells;
    assert "ex"[0] == 'e' && "px"[0] == 'p';
  }

  /** The texts that stand for an integer: an optional sign and digits, of a value that fits 32 bits. */
  ghost predicate Denotes(text: Bytes, sign: Bytes, digits: Bytes, n: int) {
    && text == sign + digits && (sign == "" || sign == "+" || sign == "-") && digits != [] && AllDigits(digits)
    && n == Value(digits) * (if sign == "-" then -1 else 1) && -2147483648 <= n <= 2147483647
  }

  lemma IntegerMeans(text: Bytes, n: int)
    ensures IntOf(text) == Some(n) <==> exists sign: Bytes, digits: Bytes :: Denotes(text, sign, digits, n)
  {
    hide Denotes, IntOf;
    if IntOf(text) == Some(n) { ReadDenotes(text, n); }
    if exists sign: Bytes, digits: Bytes :: Denotes(text, sign, digits, n) {
      var sign: Bytes, digits: Bytes :| Denotes(text, sign, digits, n);
      DenotedRead(text, sign, digits, n);
    }
  }

  lemma ReadDenotes(text: Bytes, n: int)
    requires IntOf(text) == Some(n)
    ensures Denotes(text, if HasSign(text) then text[..1] else [], Digits(text), n)
  {
    hide Value, AllDigits;
    var sign := if HasSign(text) then text[..1] else [];
    assert text == sign + Digits(text);
    assert HasSign(text) ==> sign == [text[0]];
    if !HasSign(text) { FirstDigit(text); }
  }

  lemma FirstDigit(digits: Bytes)
    requires AllDigits(digits) && digits != []
    ensures IsDigit(digits[0])
  {
  }

  lemma DenotedRead(text: Bytes, sign: Bytes, digits: Bytes, n: int)
    requires Denotes(text, sign, digits, n)
    ensures IntOf(text) == Some(n)
  {
    FirstDigit(digits);
    hide Value, AllDigits;
    if sign == "" {
      assert text == digits;
    } else {
      assert text[0] == sign[0] && text[1..] == digits;
    }
    assert Digits(text) == digits;
  }

  // ---------------------------------------------------------------- what is accepted, spelt out

  ghost predicate IsInteger(text: Bytes, n: int) {
    exists sign: Bytes, digits: Bytes :: Denotes(text, sign, digits, n)
  }

  /** EX or PX, and a positive amount. */
  ghost predicate IsPair(e: Expiry) {
    (Spells(e.option, "EX") || Spells(e.option, "PX")) && exists n :: n > 0 && IsInteger(e.amount, n)
  }

  /** The pair's duration in seconds: its amount after EX, and after PX a thousandth of it, rounded up. */
  ghost predicate Lasts(e: Expiry, ttl: int) {
    exists n :: IsInteger(e.amount, n) &&
      if Spells(e.option, "EX") then ttl == n else (ttl - 1) * 1000 < n <= ttl * 1000
  }

  /** At most one leading integer and then pairs; the last pair gives the duration, or else the integer does. */
  ghost predicate LastingAs(options: seq<Bytes>, lead: seq<Bytes>, es: seq<Expiry>, ttl: int) {
    && options == lead + Flatten(es) && |lead| <= 1 && (forall i :: 0 <= i < |es| ==> IsPair(es[i]))
    && (lead != [] ==> exists n :: IsInteger(lead[0], n))
    && if es != [] then Lasts(es[|es| - 1], ttl) else if lead != [] then IsInteger(lead[0], ttl) else ttl == 0
  }

  lemma IntegerRead(text: Bytes)
    ensures IntOf(text).Some? ==> IsInteger(text, IntOf(text).value)
    ensures forall n :: IsInteger(text, n) ==> IntOf(text) == Some(n)
  {
    hide IntOf, Denotes;
    if IntOf(text).Some? { IntegerMeans(text, IntOf(text).value); }
    forall n | IsInteger(text, n) ensures IntOf(text) == Some(n) { IntegerMeans(text, n); }
  }

  lemma PairMeans(e: Expiry)
    ensures IsGood(e) <==> IsPair(e)
  {
    hide IntOf, IsInteger, IsExpiry, Spells;
    IntegerRead(e.amount);
    ExpiryMeans(e.option);
  }

  lemma LastsMeans(e: Expiry, ttl: int)
    requires IsGood(e)
    ensures Lasts(e, ttl) <==> ttl == Seconds(e.option, IntOf(e.amount).value)
  {
    hide IntOf, IsInteger, IsExpiry, Spells, Seconds;
    IntegerRead(e.amount);
    ExpiryMeans(e.option);
    SecondsMean(e.option, IntOf(e.amount).value);
  }

  /** What is accepted, spelt out. */
  lemma AcceptedMeans(options: seq<Bytes>, lead: seq<Bytes>, es: seq<Expiry>, ttl: int)
    ensures AcceptedAs(options, lead, es, ttl) <==> LastingAs(options, lead, es, ttl)
  {
    hide IntOf, IsInteger, IsGood, IsPair, Seconds, Lasts, Flatten;
    forall i | 0 <= i < |es| ensures IsGood(es[i]) <==> IsPair(es[i]) { PairMeans(es[i]); }
    if lead != [] { IntegerRead(lead[0]); }
    if es != [] && IsGood(es[|es| - 1]) { LastsMeans(es[|es| - 1], ttl); }
  }

  // ---------------------------------------------------------------- what is refused

  /** The pairs before the first option that is refused, and what is left from there on. */
  ghost predicate RefusedAs(pairs: seq<Bytes>, es: seq<Expiry>, rest: seq<Bytes>, r: Options) {
    && pairs == Flatten(es) + rest && rest != [] && (forall i :: 0 <= i < |es| ==> IsGood(es[i]))
    && match r
       case Ttl(_) => false
       case Unsupported(option) => option == rest[0] && !IsExpiry(option)
       case SyntaxError => IsExpiry(rest[0]) && |rest| == 1
       case BadExpire => IsExpiry(rest[0]) && |rest| > 1 && !IsGood(Expiry(rest[0], rest[1]))
  }

  lemma {:induction false} PairsRefused(pairs: seq<Bytes>, ttl: int) returns (es: seq<Expiry>, rest: seq<Bytes>)
    requires !ReadPairs(pairs, ttl).Ttl?
    ensures RefusedAs(pairs, es, rest, ReadPairs(pairs, ttl))
    decreases |pairs|
  {
    hide Seconds, IntOf, IsExpiry;
    if IsExpiry(pairs[0]) && |pairs| > 1 && IsGood(Expiry(pairs[0], pairs[1])) {
      var later;
      later, rest := PairsRefused(pairs[2..], Seconds(pairs[0], IntOf(pairs[1]).value));
      es := [Expiry(pairs[0], pairs[1])] + later;
      hide Flatten, ReadPairs;
      PairFirst(pairs, later, rest);
    } else {
      es, rest := [], pairs;
      assert Flatten([]) + pairs == pairs;
    }
  }

  lemma PairFirst(pairs: seq<Bytes>, later: seq<Expiry>, rest: seq<Bytes>)
    requires |pairs| > 1 && pairs[2..] == Flatten(later) + rest
    ensures pairs == Flatten([Expiry(pairs[0], pairs[1])] + later) + rest
  {
    var es := [Expiry(pairs[0], pairs[1])] + later;
    assert es[1..] == later;
    var front := [pairs[0], pairs[1]];
    assert Flatten(es) == front + Flatten(later);
    Rejoin(front, Flatten(later), rest);
    TakeTwo(pairs);
  }

  lemma Rejoin<T>(a: seq<T>, b: seq<T>, c: seq<T>)
    ensures a + b + c == a + (b + c)
  {
  }

  lemma TakeTwo<T>(s: seq<T>)
    requires |s| > 1
    ensures s == [s[0], s[1]] + s[2..]
  {
  }

  /**
   Options that are not accepted are refused for the first of them that cannot follow the leading integer and the good
   pairs before it: one that is not EX or PX, one without an amount, or one with a bad amount.
   */
  lemma OptionsRefused(options: seq<Bytes>) returns (lead: seq<Bytes>, es: seq<Expiry>, rest: seq<Bytes>)
    requires !ReadOptions(options).Ttl?
    ensures lead == [] || (|lead| == 1 && IntOf(lead[0]).Some?)
    ensures options == lead + Flatten(es) + rest && RefusedAs(Flatten(es) + rest, es, rest, ReadOptions(options))
    ensures lead == [] && es == [] && ReadOptions(options).Unsupported? ==> IntOf(rest[0]).None?
  {
    hide IntOf, Seconds, IsExpiry, Flatten, ReadPairs, IsGood;
    if options != [] && !IsExpiry(options[0]) && IntOf(options[0]).Some? {
      lead := options[..1];
      es, rest := PairsRefused(options[1..], IntOf(options[0]).value);
      assert options == lead + options[1..];
      assert lead + Flatten(es) + rest == lead + (Flatten(es) + rest);
    } else {
      lead := [];
      es, rest := PairsRefused(options, 0);
      assert [] + Flatten(es) + rest == Flatten(es) + rest;
      if es == [] { assert Flatten(es) + rest == rest by { NoPairs(es); } }
    }
  }

  lemma NoPairs(es: seq<Expiry>)
    requires es == []
    ensures Flatten(es) == []
  {
  }
}

/** What each command answers, and what it does to the cache and the log. */
module Commands {
  import opened ByteStrings
  import opened Decimal
  import opened CacheModel
  import opened AofLog
  import opened Protocol
  import opened Replies
  import opened SetOptions

  /** What a command finds outside the cache: the allocator, the clock and the rendered metrics. */
  datatype Surroundings = Surroundings(capacity: nat, buckets: nat, now: nat, metrics: Bytes)

  /** What can be found: a string's capacity is no less than its length, and a table never shrinks. */
  predicate Plausible(c: Cache, cmd: Command, x: Surroundings) {
    c.buckets <= x.buckets && (cmd.kind == SET && |cmd.args| >= 2 ==> |cmd.args[1]| <= x.capacity)
  }

  /** What a SET asks for, once its arguments have been checked. */
  datatype SetCheck = Refuse(line: Bytes) | Proceed(put: Put)

  const OK: Bytes := "+OK"
  const PONG: Bytes := "+PONG"
  const NIL: Bytes := "$-1"
  const ONE: Bytes := ":1"
  const ZERO: Bytes := ":0"
  const SET_ARITY: Bytes := "-ERR wrong number of arguments for SET"
  const KEY_TOO_LARGE: Bytes := "-ERR key too large"
  const VALUE_TOO_LARGE: Bytes := "-ERR value too large (max-value-size)"
  const SYNTAX_ERROR: Bytes := "-ERR syntax error"
  const BAD_EXPIRE: Bytes := "-ERR invalid expire value"
  const OVER_LIMIT: Bytes := "-ERR value too large for memory limit"
  const GET_ARITY: Bytes := "-ERR wrong number of arguments for GET"
  const DEL_ARITY: Bytes := "-ERR wrong number of arguments for DEL"
  const OPTION_ERROR: Bytes := "-ERR unsupported SET option: "
  const VERB_ERROR: Bytes := "-ERR unknown command '"

  function CheckSet(maxValue: nat, limits: Limits, args: seq<Bytes>, x: Surroundings): SetCheck {
    if |args| < 2 then Refuse(SET_ARITY)
    else if |args[0]| > MAX_KEY_SIZE then Refuse(KEY_TOO_LARGE)
    else if |args[1]| > maxValue then Refuse(VALUE_TOO_LARGE)
    else match ReadOptions(args[2..])
      case SyntaxError => Refuse(SYNTAX_ERROR)
      case BadExpire => Refuse(BAD_EXPIRE)
      case Unsupported(option) => Refuse(OPTION_ERROR + option)
      case Ttl(ttl) =>
        if !CanStore(limits, args[0], args[1], x.capacity) then Refuse(OVER_LIMIT)
        else Proceed(Put(args[0], args[1], x.capacity, ttl, x.buckets))
  }

  function Respond(maxValue: nat, limits: Limits, c: Cache, cmd: Command, x: Surroundings): Response {
    match cmd.kind
    case PING => if cmd.args == [] then Text(PONG) else BulkString(cmd.args[0])
    case SELECT => Text(OK)
    case SET =>
      (match CheckSet(maxValue, limits, cmd.args, x)
       case Refuse(line) => Text(line)
       case Proceed(_) => Text(OK))
    case GET =>
      if cmd.args == [] then Text(GET_ARITY)
      else
        (match Get(c, cmd.args[0], x.now).1
         case Some(value) => BulkString(value)
         case None => Text(NIL))
    case DEL =>
      if cmd.args == [] then Text(DEL_ARITY)
      else if cmd.args[0] in c.data then Text(ONE) else Text(ZERO)
    case METRICS => Text(BulkHeader(|x.metrics|) + x.metrics + CRLF)
    case UNKNOWN => if cmd.verb == [] then Text([]) else Text(VERB_ERROR + cmd.verb + "'")
  }

  function Effect(maxValue: nat, limits: Limits, c: Cache, cmd: Command, x: Surroundings): Cache {
    match cmd.kind
    case SET =>
      (match CheckSet(maxValue, limits, cmd.args, x)
       case Refuse(_) => c
       case Proceed(p) => CacheModel.Set(c, limits, p, x.now))
    case GET => if cmd.args == [] then c else Get(c, cmd.args[0], x.now).0
    case DEL => if cmd.args == [] then c else Del(c, cmd.args[0]).0
    case _ => c
  }

  /** A command keeps the table and the policy together, and the cache within its budget. */
  lemma EffectKeeps(maxValue: nat, limits: Limits, c: Cache, cmd: Command, x: Surroundings)
    requires Consistent(c) && WithinBudget(c, limits.memory) && Plausible(c, cmd, x)
    ensures var c' := Effect(maxValue, limits, c, cmd, x); Consistent(c') && WithinBudget(c', limits.memory)
  {
    hide Consistent, WithinBudget, CacheModel.Set, Get, Del, ReadOptions, CanStore;
    match cmd.kind
    case SET =>
      match CheckSet(maxValue, limits, cmd.args, x) {
        case Refuse(_) =>
        case Proceed(p) => SetKeeps(c, limits, p, x.now);
      }
    case GET => if cmd.args != [] { GetKeeps(c, cmd.args[0], x.now, limits.memory); }
    case DEL => if cmd.args != [] { DelKeeps(c, cmd.args[0], limits.memory); }
    case _ =>
  }

  /** The lines a command appends to the log. */
  function LogLines(maxValue: nat, limits: Limits, c: Cache, cmd: Command, x: Surroundings): seq<Record> {
    match cmd.kind
    case SET =>
      (match CheckSet(maxValue, limits, cmd.args, x)
       case Refuse(_) => []
       case Proceed(p) => [SetLine(p.key, p.value, p.ttl)])
    case DEL => if cmd.args != [] && cmd.args[0] in c.data then [DelLine(cmd.args[0])] else []
    case _ => []
  }

  /** A SET that is refused changes nothing, and one that proceeds is logged and stored. */
  lemma SetOutcome(maxValue: nat, limits: Limits, c: Cache, args: seq<Bytes>, x: Surroundings)
    ensures var cmd := Command(SET, [], args);
            var response, c' := Respond(maxValue, limits, c, cmd, x), Effect(maxValue, limits, c, cmd, x);
            var lines := LogLines(maxValue, limits, c, cmd, x);
            match CheckSet(maxValue, limits, args, x)
            case Refuse(line) => response == Text(line) && c' == c && lines == []
            case Proceed(p) =>
              response == Text(OK) && c' == CacheModel.Set(c, limits, p, x.now) &&
              lines == [SetLine(p.key, p.value, p.ttl)]
  {
  }

  // ---------------------------------------------------------------- one command, one reply

  /** The text a reply echoes cannot be taken for the end of its line. */
  ghost predicate SafeEcho(maxValue: nat, cmd: Command) {
    match cmd.kind
    case UNKNOWN => !HasCrlf(cmd.verb)
    case SET =>
      |cmd.args| >= 2 && |cmd.args[0]| <= MAX_KEY_SIZE && |cmd.args[1]| <= maxValue ==>
        (match ReadOptions(cmd.args[2..])
         case Unsupported(option) => option == [] || !HasCrlf(option[..|option| - 1])
         case _ => true)
    case _ => true
  }

  predicate Plain(line: Bytes) { line != [] && (line[0] == '+' || line[0] == '-') && '\r' !in line }

  lemma PlainIsOneReply(line: Bytes)
    requires Plain(line)
    ensures IsOneReply(Wire(Finish(Text(line))))
  {
    var w := Wire(Finish(Text(line)));
    NoCr(line[..|line| - 1]);
    forall rest: Bytes ensures ReadReply(w + rest).Some? && ReadReply(w + rest).value.1 == |w| {
      TextReads(line, rest);
    }
  }

  lemma NoCr(s: Bytes)
    requires '\r' !in s
    ensures !HasCrlf(s)
  {
  }

  /** An error text that echoes `echo` is one reply, or a line end in the echo before its last byte cuts it short. */
  lemma EchoReply(prefix: Bytes, echo: Bytes, suffix: Bytes)
    requires Plain(prefix) && '\r' !in suffix && |suffix| <= 1
    ensures var body := if suffix == [] && echo != [] then echo[..|echo| - 1] else echo;
            var w := Wire(Finish(Text(prefix + echo + suffix)));
            if HasCrlf(body) then IsCutShort(w) else IsOneReply(w)
  {
    var line := prefix + echo + suffix;
    var w := Wire(Finish(Text(line)));
    var body := if suffix == [] && echo != [] then echo[..|echo| - 1] else echo;
    if suffix == [] && echo == [] {
      assert line == prefix;
      PlainIsOneReply(prefix);
      assert !HasCrlf(body);
    } else {
      assert line[..|line| - 1] == prefix + body;
      CrlfAfterPrefix(prefix, body);
      forall rest: Bytes
        ensures var r := ReadReply(w + rest);
                r.Some? && if HasCrlf(body) then r.value.1 < |w| else r.value.1 == |w|
      {
        TextReads(line, rest);
      }
    }
  }

  lemma LineEndHasCr(s: Bytes)
    requires EndsLine(s)
    ensures '\r' in s
  {
    assert s[|s| - 2..][0] == s[|s| - 2];
  }

  /** An integer reply, or a bulk header with a negative length. */
  lemma NumberReply(line: Bytes)
    requires |line| > 1 && '\r' !in line && SignedNumber(line[1..]).Some?
    requires line[0] == ':' || (line[0] == '$' && SignedNumber(line[1..]).value < 0)
    ensures IsOneReply(Wire(Finish(Text(line))))
    ensures ReplyOf(Wire(Finish(Text(line)))) ==
            if line[0] == ':' then Number(SignedNumber(line[1..]).value) else Nil
  {
    var w := line + CRLF;
    if EndsLine(line) { LineEndHasCr(line); }
    assert Wire(Finish(Text(line))) == w;
    forall rest: Bytes
      ensures ReadReply(w + rest) ==
              Some((if line[0] == ':' then Number(SignedNumber(line[1..]).value) else Nil, |w|))
    {
      CleanLine(line, rest);
      assert (w + rest)[1..|line|] == line[1..] && (w + rest)[0] == line[0];
    }
    assert w + [] == w;
  }

  lemma BulkIsOneReply(value: Bytes)
    ensures IsOneReply(Wire(Finish(BulkString(value)))) && ReplyOf(Wire(Finish(BulkString(value)))) == Data(value)
  {
    var w := Wire(Finish(BulkString(value)));
    forall rest: Bytes ensures ReadReply(w + rest) == Some((Data(value), |w|)) { BulkReads(value, rest); }
    assert ReadReply(w + []) == Some((Data(value), |w|)) && w + [] == w;
  }

  lemma MetricsIsOneReply(metrics: Bytes)
    ensures IsOneReply(Wire(Finish(Text(BulkHeader(|metrics|) + metrics + CRLF))))
  {
    var line := BulkHeader(|metrics|) + metrics + CRLF;
    var w := Wire(Finish(Text(line)));
    assert line[|line| - 2..] == CRLF;
    assert w == line;
    forall rest: Bytes ensures ReadReply(w + rest) == Some((Data(metrics), |w|)) { BulkBytesRead(metrics, rest); }
  }

  lemma PlainTexts()
    ensures Plain(OK) && Plain(SYNTAX_ERROR) && Plain(BAD_EXPIRE) && Plain(KEY_TOO_LARGE)
  {
  }

  lemma PlainRefusals()
    ensures Plain(OPTION_ERROR) && Plain(SET_ARITY)
  {
  }

  lemma PlainSizeErrors()
    ensures Plain(VALUE_TOO_LARGE) && Plain(OVER_LIMIT)
  {
  }

  lemma SetIsOneReply(maxValue: nat, limits: Limits, cmd: Command, x: Surroundings)
    requires cmd.kind == SET
    ensures var line := match CheckSet(maxValue, limits, cmd.args, x) { case Refuse(l) => l case Proceed(_) => OK };
            var w := Wire(Finish(Text(line)));
            if SafeEcho(maxValue, cmd) then IsOneReply(w) else IsCutShort(w)
  {
    PlainTexts();
    PlainRefusals();
    PlainSizeErrors();
    hide IsOneReply, IsCutShort, HasCrlf, Wire, Finish, Text, ReadOptions, CanStore, Plain;
    var args := cmd.args;
    match CheckSet(maxValue, limits, args, x)
    case Proceed(_) => PlainIsOneReply(OK);
    case Refuse(line) =>
      if |args| >= 2 && |args[0]| <= MAX_KEY_SIZE && |args[1]| <= maxValue && ReadOptions(args[2..]).Unsupported? {
        var option := ReadOptions(args[2..]).option;
        EchoReply(OPTION_ERROR, option, []);
        assert OPTION_ERROR + option + [] == line;
        if option == [] { NoCr(option); }
      } else {
        PlainIsOneReply(line);
      }
  }

  /**
   One command, one reply: what the server queues for a command is read back as exactly one reply if and only if the
   text it echoes is safe; if it is not, the reply that is read ends early, and leaves the client inside the answer.
   */
  lemma OneReply(maxValue: nat, limits: Limits, c: Cache, cmd: Command, x: Surroundings)
    requires !IsBlank(cmd)
    ensures var w := Wire(Finish(Respond(maxValue, limits, c, cmd, x)));
            (IsOneReply(w) <==> SafeEcho(maxValue, cmd)) && (IsCutShort(w) <==> !SafeEcho(maxValue, cmd))
  {
    NotBoth(Wire(Finish(Respond(maxValue, limits, c, cmd, x))));
    hide IsOneReply, IsCutShort, HasCrlf, Wire, Finish;
    match cmd.kind
    case PING => if cmd.args == [] { PlainIsOneReply(PONG); } else { BulkIsOneReply(cmd.args[0]); }
    case SELECT => PlainIsOneReply(OK);
    case SET => SetIsOneReply(maxValue, limits, cmd, x);
    case GET =>
      if cmd.args == [] {
        ArityReplies();
      } else {
        match Get(c, cmd.args[0], x.now).1
        case Some(value) => BulkIsOneReply(value);
        case None => ShortReplies();
      }
    case DEL => if cmd.args == [] { ArityReplies(); } else { ShortReplies(); }
    case METRICS => MetricsIsOneReply(x.metrics);
    case UNKNOWN => EchoReply(VERB_ERROR, cmd.verb, "'");
  }

  lemma ArityReplies()
    ensures IsOneReply(Wire(Finish(Text(GET_ARITY)))) && IsOneReply(Wire(Finish(Text(DEL_ARITY))))
  {
    PlainIsOneReply(GET_ARITY);
    PlainIsOneReply(DEL_ARITY);
  }

  lemma ShortReplies()
    ensures IsOneReply(Wire(Finish(Text(NIL)))) && ReplyOf(Wire(Finish(Text(NIL)))) == Nil
    ensures IsOneReply(Wire(Finish(Text(ONE)))) && ReplyOf(Wire(Finish(Text(ONE)))) == Number(1)
    ensures IsOneReply(Wire(Finish(Text(ZERO)))) && ReplyOf(Wire(Finish(Text(ZERO)))) == Number(0)
  {
    OneDigit("1");
    OneDigit("0");
    assert NIL[1..][1..] == "1" && ONE[1..] == "1" && ZERO[1..] == "0";
    assert SignedNumber("-1") == Some(-1);
    NumberReply(NIL);
    NumberReply(ONE);
    NumberReply(ZERO);
  }

  lemma OneDigit(s: Bytes)
    requires |s| == 1 && IsDigit(s[0])
    ensures AllDigits(s) && Value(s) == DigitValue(s[0])
  {
    assert s[..0] == [];
  }

  /** A GET of a live key answers with exactly the stored bytes, and of any other key with nil. */
  lemma GetPayloadIntact(maxValue: nat, limits: Limits, c: Cache, cmd: Command, x: Surroundings)
    requires cmd.kind == GET && cmd.args != []
    ensures ReplyOf(Wire(Finish(Respond(maxValue, limits, c, cmd, x)))) ==
            match Get(c, cmd.args[0], x.now).1 { case Some(value) => Data(value) case None => Nil }
  {
    match Get(c, cmd.args[0], x.now).1
    case Some(value) => BulkIsOneReply(value);
    case None => ShortReplies();
  }

  /** The two lines that a verb of two lines is answered with. */
  lemma TwoLines(maxValue: nat, limits: Limits, c: Cache, x: Surroundings, first: Bytes, second: Bytes)
    requires |first| == 1 && first[0] == 'A' && '\r' !in second
    ensures var cmd := Classify([first + CRLF + second]);
            && !IsBlank(cmd)
            && Wire(Finish(Respond(maxValue, limits, c, cmd, x))) == VERB_ERROR + first + CRLF + (second + "'" + CRLF)
  {
    var verb := first + CRLF + second;
    var cmd := Classify([verb]);
    assert Upper(verb)[1] == '\r';
    assert cmd.kind == UNKNOWN && cmd.verb == verb;
    var line := VERB_ERROR + verb + "'";
    assert line[|line| - 1] == '\'';
    assert !EndsLine(line) by { assert line[|line| - 2..][1] == line[|line| - 1]; }
    assert line + CRLF == VERB_ERROR + first + CRLF + (second + "'" + CRLF);
  }

  /** A verb can make one answer read back as two replies, the second of its own choosing. */
  lemma SplitVerb(maxValue: nat, limits: Limits, c: Cache, x: Surroundings)
    ensures var cmd := Classify(["A\r\n+B"]);
            && !IsBlank(cmd)
            && ReadAll(Wire(Finish(Respond(maxValue, limits, c, cmd, x)))) ==
               Some([ErrorReply((VERB_ERROR + "A")[1..]), Status("B'")])
  {
    hide ReadAll, Wire, Finish, Respond, Classify;
    var second: Bytes := "+B";
    TwoLines(maxValue, limits, c, x, "A", second);
    assert "A" + CRLF + second == "A\r\n+B";
    VerbErrorPlain();
    var line: Bytes := second + "'";
    assert line == "+B'" && line[1..] == "B'";
    TwoReplies(VERB_ERROR + "A", line);
  }

  lemma VerbErrorPlain()
    ensures Plain(VERB_ERROR)
  {
  }

  /** A verb can leave the client with a stream that it cannot read. */
  lemma UnreadableVerb(maxValue: nat, limits: Limits, c: Cache, x: Surroundings)
    ensures var cmd := Classify(["A\r\nB"]);
            && !IsBlank(cmd)
            && ReadAll(Wire(Finish(Respond(maxValue, limits, c, cmd, x)))) == None
  {
    hide ReadAll, Wire, Finish, Respond, Classify;
    var second: Bytes := "B";
    TwoLines(maxValue, limits, c, x, "A", second);
    assert "A" + CRLF + second == "A\r\nB";
    VerbErrorPlain();
    StrangeLine(VERB_ERROR + "A", second + "'" + CRLF);
  }
}
