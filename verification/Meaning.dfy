/**
 What each request means, told from its bytes: the answer, what becomes of the cache, and what is logged. The
 statements spell out letters, texts and numbers, and are about every event of a server's history.
 */
module Meaning {
  import opened ByteStrings
  import opened Decimal
  import opened Protocol
  import opened Replies
  import opened CacheModel
  import opened AofLog
  import opened SetOptions
  import opened Commands
  import opened ClientServer
  import Lru = LruOrder

  /** The server, as far as answers depend on it. */
  datatype Setting = Setting(maxValue: nat, limits: Limits)

  function Wired(at: Setting, e: Exchange): Bytes { AnswerOf(at.maxValue, at.limits, e) }

  function Left(at: Setting, e: Exchange): Cache { After(at.maxValue, at.limits, Answering(e)) }

  function Noted(at: Setting, e: Exchange): seq<Record> { LinesOf(at.maxValue, at.limits, Answering(e)) }

  predicate Asks(e: Exchange, name: Bytes) { e.argv != [] && Spells(e.argv[0], name) }

  /** A bulk reply, byte by byte. */
  function Bulk(value: Bytes): Bytes { "$" + Print(|value|) + "\r\n" + value + "\r\n" }

  /** Nothing but an answer. */
  predicate Inert(at: Setting, e: Exchange) { Left(at, e) == e.before && Noted(at, e) == [] }

  lemma TextWire(line: Bytes)
    requires '\n' !in line
    ensures Wire(Finish(Text(line))) == line + "\r\n"
  {
    assert |line| >= 2 ==> line[|line| - 2..][1] == line[|line| - 1];
  }

  lemma BulkWire(value: Bytes)
    ensures Wire(Finish(BulkString(value))) == Bulk(value)
  {
    assert "$" == ['$'];
  }

  lemma PingMeans(at: Setting, e: Exchange)
    requires Asks(e, "PING")
    ensures Wired(at, e) == if |e.argv| == 1 then "+PONG\r\n" else Bulk(e.argv[1])
    ensures Inert(at, e)
  {
    hide Spells, Wire, Finish;
    VerbMeans(e.argv);
    if |e.argv| == 1 { TextWire(PONG); } else { BulkWire(e.argv[1]); }
  }

  lemma SelectMeans(at: Setting, e: Exchange)
    requires Asks(e, "SELECT")
    ensures Wired(at, e) == "+OK\r\n" && Inert(at, e)
  {
    hide Spells, Wire, Finish;
    VerbMeans(e.argv);
    TextWire(OK);
  }

  lemma MetricsMeans(at: Setting, e: Exchange)
    requires Asks(e, "METRICS")
    ensures Wired(at, e) == Bulk(e.found.metrics) && Inert(at, e)
  {
    hide Spells;
    VerbMeans(e.argv);
    var head := BulkHeader(|e.found.metrics|) + e.found.metrics + CRLF;
    assert head[|head| - 2..] == CRLF;
    assert "$" == ['$'];
  }

  /** Any other verb is answered with an error that echoes it. */
  lemma UnknownMeans(at: Setting, e: Exchange)
    requires e.argv != [] && e.argv[0] != []
    requires !Asks(e, "SET") && !Asks(e, "GET") && !Asks(e, "DEL")
    requires !Asks(e, "METRICS") && !Asks(e, "PING") && !Asks(e, "SELECT")
    ensures Wired(at, e) == "-ERR unknown command '" + e.argv[0] + "'\r\n" && Inert(at, e)
  {
    hide Spells;
    VerbMeans(e.argv);
    var line := VERB_ERROR + e.argv[0] + "'";
    assert !EndsLine(line) by { assert line[|line| - 2..][1] == '\''; }
  }

  /**
   GET answers with the stored value if its deadline is not past, and counts a hit; otherwise it answers nil and counts
   a miss, and what is past its deadline is dropped and counted.
   */
  lemma GetMeans(at: Setting, e: Exchange)
    requires Asks(e, "GET") && |e.argv| >= 2
    ensures Noted(at, e) == []
    ensures var c, r, k := e.before, Left(at, e), e.argv[1];
            var past := k in c.expiries && c.expiries[k] <= e.found.now;
            if k in c.data && !past
            then Wired(at, e) == Bulk(c.data[k].value) && r.data == c.data && r.expiries == c.expiries &&
                 r.hits == c.hits + 1 && r.misses == c.misses && r.expired == c.expired
            else Wired(at, e) == "$-1\r\n" && r.hits == c.hits && r.misses == c.misses + 1 &&
                 r.data == (if past then c.data - {k} else c.data) &&
                 r.expiries == (if past then c.expiries - {k} else c.expiries) &&
                 r.expired == (if past then c.expired + 1 else c.expired)
  {
    hide Spells, Wire, Finish, Lru.Touch, Lru.Remove;
    VerbMeans(e.argv);
    var c, k := e.before, e.argv[1];
    TextWire(NIL);
    if k in c.data { BulkWire(c.data[k].value); } else { assert c.data - {k} == c.data; }
  }

  /** DEL answers whether the key was there, takes it away with its deadline, and logs it if it was. */
  lemma DelMeans(at: Setting, e: Exchange, logged: map<Bytes, Bytes>)
    requires Asks(e, "DEL") && |e.argv| >= 2
    ensures var c, r, k := e.before, Left(at, e), e.argv[1];
            if k in c.data
            then Wired(at, e) == ":1\r\n" && r.data == c.data - {k} && r.expiries == c.expiries - {k} &&
                 |Noted(at, e)| == 1 && Onward(logged, Noted(at, e)) == logged - {k}
            else Wired(at, e) == ":0\r\n" && r == c && Noted(at, e) == []
  {
    hide Spells, Wire, Finish, Lru.Remove;
    VerbMeans(e.argv);
    TextWire(ONE);
    TextWire(ZERO);
    LineReadsBack(logged, [], e.argv[1], [], 0);
    assert [] + [DelLine(e.argv[1])] == [DelLine(e.argv[1])];
  }

  /** GET and DEL without a key, and SET without a value, are errors. */
  lemma ArityMeans(at: Setting, e: Exchange)
    ensures Asks(e, "GET") && |e.argv| == 1 ==>
              Wired(at, e) == "-ERR wrong number of arguments for GET\r\n" && Inert(at, e)
    ensures Asks(e, "DEL") && |e.argv| == 1 ==>
              Wired(at, e) == "-ERR wrong number of arguments for DEL\r\n" && Inert(at, e)
    ensures Asks(e, "SET") && |e.argv| < 3 ==>
              Wired(at, e) == "-ERR wrong number of arguments for SET\r\n" && Inert(at, e)
  {
    hide Spells, Wire, Finish, Text, GET_ARITY, DEL_ARITY, SET_ARITY;
    if e.argv != [] { VerbMeans(e.argv); }
    ArityWires();
  }

  lemma ArityWires()
    ensures Wire(Finish(Text(GET_ARITY))) == "-ERR wrong number of arguments for GET\r\n"
    ensures Wire(Finish(Text(DEL_ARITY))) == "-ERR wrong number of arguments for DEL\r\n"
    ensures Wire(Finish(Text(SET_ARITY))) == "-ERR wrong number of arguments for SET\r\n"
  {
    hide Wire, Finish, Text;
    TextWire(GET_ARITY);
    TextWire(DEL_ARITY);
    TextWire(SET_ARITY);
  }

  // ---------------------------------------------------------------- SET

  /** The options give a duration in seconds; one that is not positive stands for none. */
  ghost predicate Lasting(options: seq<Bytes>, ttl: int) {
    exists lead: seq<Bytes>, es: seq<Expiry> :: LastingAs(options, lead, es, ttl)
  }

  /** The sizes that a SET of at least a key and a value may have. */
  predicate Fitting(at: Setting, e: Exchange)
    requires |e.argv| >= 3
  {
    && |e.argv[1]| <= 1024 * 1024 && |e.argv[2]| <= at.maxValue && |e.argv[2]| <= at.limits.maxValue
    && e.found.capacity + 128 + |e.argv[1]| <= at.limits.memory
  }

  /** Whether a SET is accepted, and with what duration. */
  ghost predicate Accepted(at: Setting, e: Exchange, ttl: int) {
    |e.argv| >= 3 && Fitting(at, e) && Lasting(e.argv[3..], ttl)
  }

  lemma LastingMeans(options: seq<Bytes>, ttl: int)
    ensures Lasting(options, ttl) <==> ReadOptions(options) == Ttl(ttl)
  {
    hide ReadOptions, AcceptedAs, LastingAs;
    OptionsAccepted(options, ttl);
    forall lead: seq<Bytes>, es: seq<Expiry>
      ensures AcceptedAs(options, lead, es, ttl) <==> LastingAs(options, lead, es, ttl)
    {
      AcceptedMeans(options, lead, es, ttl);
    }
  }

  lemma CheckMeans(at: Setting, e: Exchange, ttl: int)
    requires Asks(e, "SET")
    ensures var check := CheckSet(at.maxValue, at.limits, e.argv[1..], e.found);
            Accepted(at, e, ttl) <==>
            check.Proceed? && |e.argv| >= 3 &&
            check.put == Put(e.argv[1], e.argv[2], e.found.capacity, ttl, e.found.buckets)
  {
    hide ReadOptions, Lasting, Spells;
    var args := e.argv[1..];
    if |e.argv| >= 3 {
      assert args[0] == e.argv[1] && args[1] == e.argv[2] && args[2..] == e.argv[3..];
      LastingMeans(e.argv[3..], ttl);
    }
  }

  /**
   An accepted SET is answered OK and logs one line, which reads back as its key set to its value, with its duration.
   Its key, if it stays, has its value and the deadline of that duration from now on; every other key that stays is as
   it was.
   */
  lemma SetMeans(at: Setting, e: Exchange, ttl: int, logged: map<Bytes, Bytes>)
    requires Asks(e, "SET") && Accepted(at, e, ttl) && Consistent(e.before)
    ensures Wired(at, e) == "+OK\r\n"
    ensures var lines, k, v := Noted(at, e), e.argv[1], e.argv[2];
            |lines| == 1 && lines[0].SetRecord? && lines[0].ttl == ttl && Onward(logged, lines) == logged[k := v]
    ensures var c, r, k, v := e.before, Left(at, e), e.argv[1], e.argv[2];
            && (k in r.data ==> r.data[k].value == v && DueAfter(r.expiries, k, ttl, e.found.now))
            && forall j :: j in r.data && j != k ==> SameEntry(c, r, j)
  {
    hide Spells, Wire, Finish, CanStore, Consistent, CacheModel.Set, Accepted, Wired, Left, Noted;
    SetIs(at, e, ttl);
    TextWire(OK);
    var p := Put(e.argv[1], e.argv[2], e.found.capacity, ttl, e.found.buckets);
    SetEntries(e.before, at.limits, p, e.found.now);
    LineReadsBack(logged, [], p.key, p.value, ttl);
    assert [] + [SetLine(p.key, p.value, ttl)] == [SetLine(p.key, p.value, ttl)];
  }

  /** What an accepted SET adds up to: when its key stays, and what the counters say. */
  lemma SetTallies(at: Setting, e: Exchange, ttl: int)
    requires Asks(e, "SET") && Accepted(at, e, ttl) && Consistent(e.before)
    ensures var c, r, k, v := e.before, Left(at, e), e.argv[1], e.argv[2];
            var buckets := if k in c.data then c.buckets else e.found.buckets;
            && (k in r.data <==> |k| + e.found.capacity + 128 + buckets * 8 <= at.limits.memory)
            && r.evictions + |r.data| == c.evictions + |c.data + map[k := Meta(v, 0)]|
            && r.largest == (if |v| > c.largest then |v| else c.largest)
            && r.hits == c.hits && r.misses == c.misses && r.expired == c.expired
  {
    hide Spells, CanStore, Consistent, CacheModel.Set, Accepted, Wired, Left, Noted;
    SetIs(at, e, ttl);
    var p := Put(e.argv[1], e.argv[2], e.found.capacity, ttl, e.found.buckets);
    SetCounts(e.before, at.limits, p, e.found.now);
    NewKeySurvives(e.before, at.limits, p, e.found.now);
  }

  lemma SetIs(at: Setting, e: Exchange, ttl: int)
    requires Asks(e, "SET") && Accepted(at, e, ttl)
    ensures |e.argv| >= 3 && CanStore(at.limits, e.argv[1], e.argv[2], e.found.capacity)
    ensures var p := Put(e.argv[1], e.argv[2], e.found.capacity, ttl, e.found.buckets);
            && Wired(at, e) == Wire(Finish(Text(OK))) && Noted(at, e) == [SetLine(p.key, p.value, ttl)]
            && Left(at, e) == CacheModel.Set(e.before, at.limits, p, e.found.now)
  {
    hide Spells, Wire, Finish, CanStore, CheckSet, CacheModel.Set, Accepted;
    VerbMeans(e.argv);
    CheckMeans(at, e, ttl);
    AcceptedFits(at, e, ttl);
  }

  lemma AcceptedFits(at: Setting, e: Exchange, ttl: int)
    requires Accepted(at, e, ttl)
    ensures |e.argv| >= 3 && CanStore(at.limits, e.argv[1], e.argv[2], e.found.capacity)
  {
  }

  /** What an accepted SET does to the counters. */
  lemma SetCounts(c: Cache, limits: Limits, p: Put, now: nat)
    requires Consistent(c) && CanStore(limits, p.key, p.value, p.capacity)
    ensures var r := CacheModel.Set(c, limits, p, now);
            && r.evictions + |r.data| == c.evictions + |c.data + map[p.key := Meta(p.value, 0)]|
            && r.largest == (if |p.value| > c.largest then |p.value| else c.largest)
            && r.hits == c.hits && r.misses == c.misses && r.expired == c.expired
            && r.peak == Max(c.peak, Used(Store(c, p)))
  {
    hide Consistent, EvictLoop, Store, CanStore, Lru.TotalCost;
    var s := NotePeak(Schedule(Store(c, p), p.key, p.ttl, now));
    StoreConsistent(c, p);
    ScheduleConsistent(Store(c, p), p.key, p.ttl, now);
    EvictLoopEffect(s, limits.memory);
    StoreTallies(c, p);
  }

  lemma StoreTallies(c: Cache, p: Put)
    ensures var s := Store(c, p);
            && |s.data| == |c.data + map[p.key := Meta(p.value, 0)]| && s.evictions == c.evictions
            && s.largest == (if |p.value| > c.largest then |p.value| else c.largest)
            && s.hits == c.hits && s.misses == c.misses && s.expired == c.expired && s.peak == c.peak
  {
    hide Lru.Add;
    var data := c.data[p.key := Meta(p.value, p.Accounted())];
    assert data.Keys == c.data.Keys + {p.key} == (c.data + map[p.key := Meta(p.value, 0)]).Keys;
    SameSize(data, c.data + map[p.key := Meta(p.value, 0)]);
  }

  lemma SameSize<V>(m: map<Bytes, V>, n: map<Bytes, V>)
    requires m.Keys == n.Keys
    ensures |m| == |n|
  {
    assert |m| == |m.Keys| && |n| == |n.Keys|;
  }

  /** A SET that is not accepted changes and logs nothing, and is answered with an error that says why. */
  lemma SetRefused(at: Setting, e: Exchange)
    requires Asks(e, "SET") && |e.argv| >= 3 && forall ttl :: !Accepted(at, e, ttl)
    ensures Inert(at, e)
    ensures var answer, options := Wired(at, e), e.argv[3..];
            if |e.argv[1]| > 1024 * 1024 then answer == "-ERR key too large\r\n"
            else if |e.argv[2]| > at.maxValue then answer == "-ERR value too large (max-value-size)\r\n"
            else if exists ttl :: Lasting(options, ttl) then answer == "-ERR value too large for memory limit\r\n"
            else
              match ReadOptions(options)
              case Ttl(_) => false
              case SyntaxError => answer == "-ERR syntax error\r\n"
              case BadExpire => answer == "-ERR invalid expire value\r\n"
              case Unsupported(option) =>
                answer == "-ERR unsupported SET option: " + option + if EndsLine(option) then "" else "\r\n"
  {
    hide Spells, Wire, Finish, ReadOptions, Accepted, Lasting, CheckSet, Wired, Inert;
    var options := e.argv[3..];
    NotProceeding(at, e);
    RefusalSent(at, e);
    RefusalReason(at, e);
    SizeErrorWires();
    OptionErrorWires();
    hide KEY_TOO_LARGE, VALUE_TOO_LARGE, OVER_LIMIT, SYNTAX_ERROR, BAD_EXPIRE, OPTION_ERROR, Text;
    match ReadOptions(options)
    case Ttl(ttl) => ReadAsLasting(options, ttl);
    case Unsupported(option) =>
      OptionWire(option);
      NotLasting(options);
    case _ => NotLasting(options);
  }

  lemma SizeErrorWires()
    ensures Wire(Finish(Text(KEY_TOO_LARGE))) == "-ERR key too large\r\n"
    ensures Wire(Finish(Text(VALUE_TOO_LARGE))) == "-ERR value too large (max-value-size)\r\n"
    ensures Wire(Finish(Text(OVER_LIMIT))) == "-ERR value too large for memory limit\r\n"
  {
    hide Wire, Finish, Text;
    TextWire(KEY_TOO_LARGE);
    TextWire(VALUE_TOO_LARGE);
    TextWire(OVER_LIMIT);
  }

  lemma OptionErrorWires()
    ensures Wire(Finish(Text(SYNTAX_ERROR))) == "-ERR syntax error\r\n"
    ensures Wire(Finish(Text(BAD_EXPIRE))) == "-ERR invalid expire value\r\n"
  {
    hide Wire, Finish, Text;
    TextWire(SYNTAX_ERROR);
    TextWire(BAD_EXPIRE);
  }

  lemma ReadAsLasting(options: seq<Bytes>, ttl: int)
    requires ReadOptions(options) == Ttl(ttl)
    ensures Lasting(options, ttl)
  {
    hide ReadOptions, Lasting;
    LastingMeans(options, ttl);
  }

  lemma RefusalSent(at: Setting, e: Exchange)
    requires Asks(e, "SET") && CheckSet(at.maxValue, at.limits, e.argv[1..], e.found).Refuse?
    ensures Inert(at, e)
    ensures Wired(at, e) == Wire(Finish(Text(CheckSet(at.maxValue, at.limits, e.argv[1..], e.found).line)))
  {
    hide Spells, Wire, Finish, CheckSet;
    VerbMeans(e.argv);
  }

  lemma RefusalReason(at: Setting, e: Exchange)
    requires |e.argv| >= 3 && CheckSet(at.maxValue, at.limits, e.argv[1..], e.found).Refuse?
    ensures CheckSet(at.maxValue, at.limits, e.argv[1..], e.found).line ==
            if |e.argv[1]| > 1024 * 1024 then KEY_TOO_LARGE
            else if |e.argv[2]| > at.maxValue then VALUE_TOO_LARGE
            else
              match ReadOptions(e.argv[3..])
              case Ttl(_) => OVER_LIMIT
              case SyntaxError => SYNTAX_ERROR
              case BadExpire => BAD_EXPIRE
              case Unsupported(option) => OPTION_ERROR + option
  {
    hide ReadOptions;
    var args := e.argv[1..];
    assert args[0] == e.argv[1] && args[1] == e.argv[2] && args[2..] == e.argv[3..];
  }

  /** OK is what an accepted SET is answered, and nothing else. */
  lemma OkIsAccepted(at: Setting, e: Exchange)
    requires Asks(e, "SET") && Consistent(e.before)
    ensures Wired(at, e) == "+OK\r\n" <==> exists ttl :: Accepted(at, e, ttl)
  {
    hide Accepted, Spells, Wired, Left, Noted, Consistent, ReadOptions, Lasting;
    if ttl :| Accepted(at, e, ttl) {
      SetMeans(at, e, ttl, map[]);
    } else {
      if |e.argv| < 3 { ArityMeans(at, e); } else { SetRefused(at, e); }
      assert Wired(at, e)[0] == '-';
    }
  }

  lemma NotProceeding(at: Setting, e: Exchange)
    requires Asks(e, "SET") && |e.argv| >= 3 && forall ttl :: !Accepted(at, e, ttl)
    ensures CheckSet(at.maxValue, at.limits, e.argv[1..], e.found).Refuse?
  {
    hide Accepted, Spells;
    var check := CheckSet(at.maxValue, at.limits, e.argv[1..], e.found);
    if check.Proceed? { CheckMeans(at, e, check.put.ttl); }
  }

  lemma NotLasting(options: seq<Bytes>)
    requires !ReadOptions(options).Ttl?
    ensures forall ttl :: !Lasting(options, ttl)
  {
    hide ReadOptions, Lasting;
    forall ttl ensures !Lasting(options, ttl) { LastingMeans(options, ttl); }
  }

  lemma OptionWire(option: Bytes)
    ensures Wire(Finish(Text(OPTION_ERROR + option))) ==
            "-ERR unsupported SET option: " + option + if EndsLine(option) then "" else "\r\n"
  {
    var line := OPTION_ERROR + option;
    if |option| >= 2 {
      assert line[|line| - 2..] == option[|option| - 2..];
    } else {
      assert line[|line| - 2..][0] == line[|line| - 2] == if |option| == 1 then ' ' else ':';
    }
    assert line + "" == line;
  }

  /** A GET right after an accepted SET of the same key answers with the value, if the key stays and is not yet due. */
  lemma GetAfterSet(at: Setting, e: Exchange, ttl: int, g: Exchange)
    requires Asks(e, "SET") && Accepted(at, e, ttl) && Consistent(e.before)
    requires Asks(g, "GET") && |g.argv| >= 2 && g.argv[1] == e.argv[1] && g.before == Left(at, e)
    requires e.argv[1] in g.before.data && (ttl > 0 ==> g.found.now < e.found.now + ttl * 1_000_000_000)
    ensures Wired(at, g) == Bulk(e.argv[2])
  {
    hide Accepted, Spells, Wired, Left, Noted, Consistent;
    SetMeans(at, e, ttl, map[]);
    GetMeans(at, g);
  }

  // ---------------------------------------------------------------- the sweeper

  /** A collection takes exactly the deadlines that have passed; a callback takes its key, and counts it, if stored. */
  lemma SweepMeans(at: Setting, c: Cache, now: nat, key: Bytes)
    ensures var r := After(at.maxValue, at.limits, Collecting(c, now));
            && r == c.(expiries := r.expiries)
            && forall k :: (k in r.expiries <==> k in c.expiries && c.expiries[k] > now) &&
                           (k in r.expiries ==> r.expiries[k] == c.expiries[k])
    ensures var r := After(at.maxValue, at.limits, CallingBack(c, key));
            && r.data == c.data - {key} && r.expiries == c.expiries && r.hits == c.hits && r.misses == c.misses
            && r.expired == c.expired + if key in c.data then 1 else 0
  {
    hide Lru.Remove;
    if key !in c.data { assert c.data - {key} == c.data; }
  }
}
