/** The client side of the server: outboxes, event registration, and the bytes each client is sent. */
module ClientServer {
  import opened ByteStrings
  import opened RespMachine
  import opened RespStream
  import opened Protocol
  import opened Replies
  import opened Outbox
  import opened Sockets
  import opened CacheModel
  import opened AofLog
  import opened AofLogging
  import opened AofReplay
  import opened StorageEngine
  import opened Commands
  import opened SetOptions

  const PARSE_OVERSHOOT: nat := 1024 * 1024

  /** What the event loop is told of: a new connection, or a client's descriptor with its events. */
  datatype Happening =
    | Connects(fd: int)
    | Polled(fd: int, readable: bool, writable: bool, hungUp: bool)

  /** The server between two turns of its loop, as far as its clients and its calls to the kernel are concerned. */
  datatype Glimpse = Glimpse(
    parsers: map<int, Parser>,
    waiting: set<int>,
    exchanges: map<int, seq<Exchange>>,
    wire: map<int, Bytes>,
    delivered: map<int, Bytes>,
    failures: nat,
    sendLog: seq<SendResult>,
    recvLog: seq<RecvResult>)

  /** One command answered: its arguments, and what it found. */
  datatype Exchange = Exchange(argv: seq<Bytes>, before: Cache, found: Surroundings)

  /** The bytes an exchange is answered with. */
  function AnswerOf(maxValue: nat, limits: Limits, e: Exchange): Bytes {
    Wire(Finish(Respond(maxValue, limits, e.before, Classify(e.argv), e.found)))
  }

  /** The answers to exchanges, in order. */
  function Answers(maxValue: nat, limits: Limits, es: seq<Exchange>): seq<Bytes> {
    seq(|es|, i requires 0 <= i < |es| => AnswerOf(maxValue, limits, es[i]))
  }

  lemma AnswersSnoc(maxValue: nat, limits: Limits, es: seq<Exchange>, e: Exchange)
    ensures Answers(maxValue, limits, es + [e]) == Answers(maxValue, limits, es) + [AnswerOf(maxValue, limits, e)]
  {
    hide AnswerOf;
  }

  function ArgvsOf(es: seq<Exchange>): seq<seq<Bytes>> { seq(|es|, i requires 0 <= i < |es| => es[i].argv) }

  /** The commands of a stream that get an answer: all but the blank ones. */
  function Answered(argvs: seq<seq<Bytes>>): seq<seq<Bytes>> {
    if argvs == [] then []
    else
      var before := Answered(argvs[..|argvs| - 1]);
      if IsBlank(Classify(argvs[|argvs| - 1])) then before else before + [argvs[|argvs| - 1]]
  }

  /** What happened to the cache: a command was answered, or the sweeper collected or called back. */
  datatype Event =
    | Answering(e: Exchange)
    | Collecting(collectedFrom: Cache, now: nat)
    | CallingBack(calledFrom: Cache, key: Bytes)

  function Before(ev: Event): Cache {
    match ev
    case Answering(e) => e.before
    case Collecting(c, _) => c
    case CallingBack(c, _) => c
  }

  function After(maxValue: nat, limits: Limits, ev: Event): Cache {
    match ev
    case Answering(e) => Effect(maxValue, limits, e.before, Classify(e.argv), e.found)
    case Collecting(c, now) => AfterCollect(c, now)
    case CallingBack(c, key) => ExpireKey(c, key)
  }

  /** What an answered command found is something it could have found. */
  predicate Sound(ev: Event) {
    ev.Answering? ==> Plausible(ev.e.before, Classify(ev.e.argv), ev.e.found)
  }

  /** One event after the other leads from `start` to `c`. */
  ghost predicate Leads(maxValue: nat, limits: Limits, start: Cache, history: seq<Event>, c: Cache) {
    if history == [] then c == start
    else
      var ev := history[|history| - 1];
      && Leads(maxValue, limits, start, history[..|history| - 1], Before(ev))
      && Sound(ev) && c == After(maxValue, limits, ev)
  }

  /** The log lines that an event is recorded by. */
  function LinesOf(maxValue: nat, limits: Limits, ev: Event): seq<Record> {
    match ev
    case Answering(e) => LogLines(maxValue, limits, e.before, Classify(e.argv), e.found)
    case _ => []
  }

  function Logged(maxValue: nat, limits: Limits, history: seq<Event>): seq<Record> {
    if history == [] then []
    else
      Logged(maxValue, limits, history[..|history| - 1]) + LinesOf(maxValue, limits, history[|history| - 1])
  }

  lemma LoggedSnoc(maxValue: nat, limits: Limits, history: seq<Event>, ev: Event)
    ensures Logged(maxValue, limits, history + [ev]) ==
            Logged(maxValue, limits, history) + LinesOf(maxValue, limits, ev)
  {
    hide LinesOf;
    assert (history + [ev])[..|history|] == history;
  }

  /** A memory limit that leaves room for `spare` more than another, and a value size limit no smaller. */
  predicate Roomier(limits: Limits, first: Limits, spare: nat) {
    first.memory + spare <= limits.memory && first.maxValue <= limits.maxValue
  }

  lemma LinesAccepted(maxValue: nat, limits: Limits, ev: Event, next: Limits, spare: nat, r: Record)
    requires Sound(ev) && r in LinesOf(maxValue, limits, ev) && Roomier(next, limits, spare)
    ensures !Refused(next, spare, r)
  {
    hide ReadOptions, Classify;
    var cmd := Classify(ev.e.argv);
    if cmd.kind == SET {
      var p := CheckSet(maxValue, limits, cmd.args, ev.e.found).put;
      assert r == SetLine(p.key, p.value, p.ttl);
      SetLineReads(p.key, p.value, p.ttl);
    }
  }

  /** Whatever a history logs was accepted, so a replay with room enough refuses none of it. */
  lemma {:induction false} LoggedAccepted(maxValue: nat, limits: Limits, start: Cache, history: seq<Event>, c: Cache,
                                          next: Limits, spare: nat, r: Record)
    requires Leads(maxValue, limits, start, history, c) && r in Logged(maxValue, limits, history)
    requires Roomier(next, limits, spare)
    ensures !Refused(next, spare, r)
    decreases |history|
  {
    hide Refused, Roomier, LinesOf, After, Sound;
    var n := |history| - 1;
    if r in LinesOf(maxValue, limits, history[n]) {
      LinesAccepted(maxValue, limits, history[n], next, spare, r);
    } else {
      LoggedAccepted(maxValue, limits, start, history[..n], Before(history[n]), next, spare, r);
    }
  }

  /** Along any history, table and policy stay together and the cache within its budget. */
  lemma {:induction false} HistoryKeeps(maxValue: nat, limits: Limits, start: Cache, history: seq<Event>, c: Cache)
    requires Leads(maxValue, limits, start, history, c) && Consistent(start) && WithinBudget(start, limits.memory)
    ensures Consistent(c) && WithinBudget(c, limits.memory)
    decreases |history|
  {
    hide Consistent, WithinBudget, Effect, ExpireKey, AfterCollect, Plausible;
    if history != [] {
      var ev := history[|history| - 1];
      HistoryKeeps(maxValue, limits, start, history[..|history| - 1], Before(ev));
      match ev
      case Answering(e) => EffectKeeps(maxValue, limits, e.before, Classify(e.argv), e.found);
      case Collecting(b, now) => CollectKeeps(b, now, limits.memory);
      case CallingBack(b, key) => ExpireKeeps(b, key, limits.memory);
    }
  }

  /** A client's exchanges are among the events, in the same order. */
  ghost predicate Within(es: seq<Exchange>, history: seq<Event>)
    decreases |history|
  {
    if es == [] then true
    else if history == [] then false
    else
      var rest := history[..|history| - 1];
      || (history[|history| - 1] == Answering(es[|es| - 1]) && Within(es[..|es| - 1], rest))
      || Within(es, rest)
  }

  /** The cache, and everything every client was answered, are those of one history. */
  ghost predicate Serial(maxValue: nat, limits: Limits, start: Cache, history: seq<Event>,
                         exchanges: map<int, seq<Exchange>>, c: Cache)
  {
    && Leads(maxValue, limits, start, history, c)
    && forall fd :: fd in exchanges ==> Within(exchanges[fd], history)
  }

  lemma SerialSweep(maxValue: nat, limits: Limits, start: Cache, history: seq<Event>,
                    exchanges: map<int, seq<Exchange>>, ev: Event)
    requires Serial(maxValue, limits, start, history, exchanges, Before(ev)) && Sound(ev)
    ensures Serial(maxValue, limits, start, history + [ev], exchanges, After(maxValue, limits, ev))
  {
    hide After, Sound;
    assert (history + [ev])[..|history|] == history;
  }

  lemma SerialAnswer(maxValue: nat, limits: Limits, start: Cache, history: seq<Event>,
                     exchanges: map<int, seq<Exchange>>, fd: int, e: Exchange)
    requires Serial(maxValue, limits, start, history, exchanges, e.before) && fd in exchanges && Sound(Answering(e))
    ensures Serial(maxValue, limits, start, history + [Answering(e)], exchanges[fd := exchanges[fd] + [e]],
                   After(maxValue, limits, Answering(e)))
  {
    hide After, Sound;
    SerialSweep(maxValue, limits, start, history, exchanges, Answering(e));
    assert (history + [Answering(e)])[..|history|] == history;
    assert (exchanges[fd] + [e])[..|exchanges[fd]|] == exchanges[fd];
  }

  lemma SerialAccept(maxValue: nat, limits: Limits, start: Cache, history: seq<Event>,
                     exchanges: map<int, seq<Exchange>>, fd: int, c: Cache)
    requires Serial(maxValue, limits, start, history, exchanges, c)
    ensures Serial(maxValue, limits, start, history, exchanges[fd := []], c)
  {
  }

  /** Where in the history a client's exchanges happened: in order, and each from the state it was answered in. */
  lemma {:induction false} AnsweredInTurn(maxValue: nat, limits: Limits, start: Cache, history: seq<Event>, c: Cache,
                                          es: seq<Exchange>) returns (at: seq<nat>)
    requires Leads(maxValue, limits, start, history, c) && Within(es, history)
    ensures |at| == |es| && forall i, j :: 0 <= i < j < |at| ==> at[i] < at[j]
    ensures forall i :: 0 <= i < |at| ==>
              at[i] < |history| && history[at[i]] == Answering(es[i]) &&
              Leads(maxValue, limits, start, history[..at[i]], es[i].before)
    decreases |history|
  {
    hide After, Sound;
    if es == [] {
      return [];
    }
    var n := |history| - 1;
    var rest := history[..n];
    if history[n] == Answering(es[|es| - 1]) && Within(es[..|es| - 1], rest) {
      at := AnsweredInTurn(maxValue, limits, start, rest, Before(history[n]), es[..|es| - 1]);
      EarlierPart(history, n, at);
      at := at + [n];
    } else {
      at := AnsweredInTurn(maxValue, limits, start, rest, Before(history[n]), es);
      EarlierPart(history, n, at);
    }
  }

  lemma EarlierPart<T>(s: seq<T>, n: nat, at: seq<nat>)
    requires n <= |s|
    ensures forall i :: 0 <= i < |at| && at[i] <= n ==> s[..n][..at[i]] == s[..at[i]]
  {
  }

  function Lookup<V>(m: map<int, V>, fd: int): Option<V> { if fd in m then Some(m[fd]) else None }

  /** Each queued chunk is one of the latest answers, in order: whole, but for what was sent of the front one. */
  ghost predicate Aligned(queue: seq<OutChunk>, answers: seq<Bytes>)
    requires ValidQueue(queue)
  {
    && |queue| <= |answers|
    && (forall j :: 1 <= j < |queue| ==> Unsent(queue[j]) == answers[|answers| - |queue| + j])
    && (queue != [] ==> |Unsent(queue[0])| <= |answers[|answers| - |queue|]|)
  }

  /** Sent bytes followed by pending bytes are exactly what is owed, and what is queued is the latest answers. */
  ghost predicate Exact(wire: Bytes, queue: seq<OutChunk>, answers: seq<Bytes>) {
    ValidQueue(queue) && wire + Pending(queue) == Concat(answers) && Aligned(queue, answers)
  }

  /** Something is left to send of the front chunk, and not too many chunks are queued. */
  ghost predicate Waiting(queue: seq<OutChunk>) {
    ValidQueue(queue) && 0 < |queue| <= MAX_QUEUED && Unsent(queue[0]) != []
  }

  /**
   A client between operations: its stream is exact, it has an outbox only while something is left to send, and it
   is watched for writability exactly while it has an outbox.
   */
  ghost predicate Good(queue: Option<seq<OutChunk>>, watch: Option<Interest>, wire: Option<Bytes>,
                       answers: seq<Bytes>)
  {
    && (queue.Some? ==> Waiting(queue.value))
    && watch == Some(if queue.Some? then ReadWrite else ReadOnly)
    && wire.Some? && Exact(wire.value, if queue.Some? then queue.value else [], answers)
  }

  /** Of the answers but the latest `n`, something has still not been taken. */
  ghost predicate BehindBy(wire: Bytes, answers: seq<Bytes>, n: nat) {
    |answers| > n && |wire| < |Concat(answers[..|answers| - n])|
  }

  lemma TakeDrop<T>(s: seq<T>, k: nat)
    requires k <= |s|
    ensures s[..k] + s[k..] == s
  {
  }

  lemma ConcatSplit(answers: seq<Bytes>, k: nat)
    requires k <= |answers|
    ensures Concat(answers) == Concat(answers[..k]) + Concat(answers[k..])
  {
    hide Concat;
    TakeDrop(answers, k);
    ConcatAppend(answers[..k], answers[k..]);
  }

  /** What is pending is what is unsent of the front answer, and all that follow it. */
  lemma {:induction false} PendingIsLatest(queue: seq<OutChunk>, answers: seq<Bytes>)
    requires ValidQueue(queue) && queue != [] && Aligned(queue, answers)
    ensures Pending(queue) == Unsent(queue[0]) + Concat(answers[|answers| - |queue| + 1..])
    decreases |queue|
  {
    hide Unsent, ValidChunk;
    var k := |answers| - |queue|;
    if |queue| == 1 {
      assert queue[1..] == [] && answers[k + 1..] == [];
    } else {
      PendingIsLatest(queue[1..], answers);
      assert answers[k + 1..][0] == answers[k + 1] && answers[k + 1..][1..] == answers[k + 2..];
    }
  }

  /** A client whose queue is within bounds has taken all but at most that many of its answers. */
  lemma NotBehind(wire: Bytes, queue: seq<OutChunk>, answers: seq<Bytes>)
    requires Exact(wire, queue, answers) && |queue| <= MAX_QUEUED
    ensures !BehindBy(wire, answers, MAX_QUEUED)
  {
    hide Unsent, ValidChunk;
    var k := |answers| - |queue|;
    ConcatSplit(answers, k);
    if queue != [] {
      PendingIsLatest(queue, answers);
      assert answers[k..][0] == answers[k] && answers[k..][1..] == answers[k + 1..];
    } else {
      assert answers[..k] == answers;
    }
    if |answers| > MAX_QUEUED {
      ConcatSplit(answers[..k], |answers| - MAX_QUEUED);
      assert answers[..k][..|answers| - MAX_QUEUED] == answers[..|answers| - MAX_QUEUED];
    }
  }

  /** One answer more for a client with a full queue puts it behind. */
  lemma PushedBehind(wire: Bytes, queue: seq<OutChunk>, answers: seq<Bytes>, a: Bytes)
    requires Exact(wire, queue, answers) && |queue| == MAX_QUEUED && Unsent(queue[0]) != []
    ensures BehindBy(wire, answers + [a], MAX_QUEUED)
  {
    hide Unsent, ValidChunk;
    var k := |answers| - |queue|;
    PendingIsLatest(queue, answers);
    ConcatSplit(answers, k + 1);
    assert (answers + [a])[..k + 1] == answers[..k + 1];
  }

  /** The parser stands where the bytes read so far put it; `argvs` are the commands among them but the blank ones. */
  ghost predicate Parsing(p: Parser, limit: nat, read: Bytes, argvs: seq<seq<Bytes>>)
    reads p
  {
    && p.Valid() && p.state != AtReady && p.state != AtFailed && p.maxBulkLen == limit
    && var f := FeedAll(limit, START, read);
       f.state == p.At() && argvs == Answered(f.argvs)
  }

  /** In one send, a client was told of a protocol error, as far as its socket took it, after `before`. */
  predicate Told(error: string, wire: Bytes, sends: seq<SendResult>, before: Bytes, log: seq<SendResult>) {
    && |sends| == |log| + 1 && log <= sends
    && var r, text := sends[|log|], Ascii("-ERR Protocol error: " + error) + "\r\n";
       && (r.Sent? ==> 0 < r.count <= |text|)
       && wire == before + text[..if r.Sent? then r.count else 0]
  }

  /** The last thing sent, after answers that were owed, is the error of `p`. */
  ghost predicate Warning(p: Progress, owed: Bytes, wire: Bytes, sends: seq<SendResult>, log: seq<SendResult>) {
    p.Failed? && exists before: Bytes, earlier: seq<SendResult> ::
      before <= owed && log <= earlier && Told(p.error, wire, sends, before, earlier)
  }

  /** How one turn of the parse loop ends. */
  datatype Turn = Continue | Wait | Gone | Rejected

  function ProtocolError(message: string): Bytes { Ascii("-ERR Protocol error: " + message) + CRLF }

  /** What a call of `consume` adds to the commands that get an answer. */
  lemma StreamGoesOn(limit: nat, read: Bytes, p: Progress, s: Bytes)
    requires FeedAll(limit, START, read).state == p
    ensures var f, r := FeedAll(limit, START, read), Run(limit, p, s);
            var f' := FeedAll(limit, START, read + s[..r.used]);
            && f' == Resume(f, r.state)
            && Answered(f'.argvs) ==
               if r.state.Done? && !IsBlank(Classify(r.state.args)) then Answered(f.argvs) + [r.state.args]
               else Answered(f.argvs)
  {
    var f, r := FeedAll(limit, START, read), Run(limit, p, s);
    FeedConcat(limit, START, read, s[..r.used]);
    FeedOneCall(limit, f, s);
    if r.state.Done? { assert (f.argvs + [r.state.args])[..|f.argvs|] == f.argvs; }
  }

  lemma ArgvsSnoc(es: seq<Exchange>, e: Exchange)
    ensures ArgvsOf(es + [e]) == ArgvsOf(es) + [e.argv]
  {
  }

  lemma {:induction false} AnsweredNotBlank(argvs: seq<seq<Bytes>>, i: nat)
    requires i < |Answered(argvs)|
    ensures !IsBlank(Classify(Answered(argvs)[i]))
    decreases |argvs|
  {
    var before := argvs[..|argvs| - 1];
    if i < |Answered(before)| { AnsweredNotBlank(before, i); }
  }

  class Server {
    const storage: Storage
    const aof: AOFLogger?
    const kernel: Kernel
    const maxValueSize: nat
    var parsers: map<int, Parser>
    var outbox: map<int, seq<OutChunk>>
    var watchFlags: map<int, Interest>
    /** Per client: the bytes read from it, and its answered commands. */
    ghost var read: map<int, Bytes>
    ghost var exchanges: map<int, seq<Exchange>>
    /** The cache at the start, and what has happened to it since. */
    ghost const start: Cache
    ghost var history: seq<Event>
    /** The log at the start, and the values that it stood for. */
    ghost const begun: seq<Record>
    ghost const base: map<Bytes, Bytes>

    constructor (storage: Storage, aof: AOFLogger?, kernel: Kernel, maxValueSize: nat, ghost base: map<Bytes, Bytes>)
      requires aof != null ==> Accounted(base, storage.Abs())
      requires storage.Valid() && kernel !in storage.Repr() && (aof != null ==> aof !in storage.Repr())
      requires kernel.interest == map[]
      ensures this.storage == storage && this.aof == aof && this.kernel == kernel && this.maxValueSize == maxValueSize
      ensures Valid() && parsers == map[] && history == [] && start == storage.Abs()
      ensures this.base == base && begun == if aof != null then aof.lines else []
    {
      hide Accounted, Storage.Valid, Storage.Abs, ClientOk, ParserOk, Effect, Respond;
      this.storage, this.aof, this.kernel, this.maxValueSize := storage, aof, kernel, maxValueSize;
      parsers, outbox, watchFlags, read, exchanges := map[], map[], map[], map[], map[];
      start, history := storage.Abs(), [];
      this.base, begun := base, if aof != null then aof.lines else [];
    }

    // -------------------------------------------------------------- what holds of every client

    function ParseLimit(): nat {
      (if maxValueSize < storage.limits.memory then maxValueSize else storage.limits.memory) + PARSE_OVERSHOOT
    }

    /** The answers to a client's commands so far. */
    ghost function AnswersTo(fd: int): seq<Bytes>
      reads this`exchanges
    {
      Answers(maxValueSize, storage.limits, if fd in exchanges then exchanges[fd] else [])
    }

    /** The reply stream a client is owed so far. */
    ghost function OwedTo(fd: int): Bytes
      reads this`exchanges
    {
      Concat(AnswersTo(fd))
    }

    /** A client that has not taken all its answers but the latest `MAX_QUEUED`. */
    ghost predicate Behind(fd: int)
      reads this`exchanges, kernel`wire
    {
      fd in kernel.wire && BehindBy(kernel.wire[fd], AnswersTo(fd), MAX_QUEUED)
    }

    ghost predicate ClientOk(fd: int)
      reads this`outbox, this`watchFlags, this`exchanges, kernel`wire
    {
      Good(Lookup(outbox, fd), Lookup(watchFlags, fd), Lookup(kernel.wire, fd), AnswersTo(fd))
    }

    /** The tables name the same clients, and the kernel watches them as recorded. */
    ghost predicate Registered()
      reads this`parsers, this`outbox, this`watchFlags, this`exchanges, kernel`wire, kernel`interest
    {
      && watchFlags.Keys == parsers.Keys && outbox.Keys <= parsers.Keys && kernel.interest == watchFlags
      && parsers.Keys <= kernel.wire.Keys && parsers.Keys <= exchanges.Keys
    }

    ghost predicate ClientsOk()
      reads this`parsers, this`outbox, this`watchFlags, this`exchanges, kernel`wire, kernel`interest
    {
      Registered() && forall fd :: fd in parsers ==> ClientOk(fd)
    }

    /** As `ClientsOk`, but for one client in the middle of an operation. */
    ghost predicate OthersOk(fd: int)
      reads this`parsers, this`outbox, this`watchFlags, this`exchanges, kernel`wire, kernel`interest
    {
      Registered() && forall g :: g in parsers && g != fd ==> ClientOk(g)
    }

    /** Nobody is closed but `fd`, and `fd` exactly if its connection failed or it fell too far behind. */
    ghost predicate Excused(fd: int, parsers0: map<int, Parser>, failures0: nat, log: seq<SendResult>)
      reads this`parsers, this`exchanges, kernel`failures, kernel`wire, kernel`sendLog
    {
      && failures0 <= kernel.failures && log <= kernel.sendLog
      && parsers == if failures0 < kernel.failures || Behind(fd) then parsers0 - {fd} else parsers0
    }

    /** Sending went on until the socket would take no more. */
    ghost predicate Blocked(log: seq<SendResult>)
      reads kernel`sendLog
    {
      log < kernel.sendLog && kernel.sendLog[|kernel.sendLog| - 1].SendWouldBlock?
    }

    /** The client was told of the error that its bytes are in, and nothing after it. */
    ghost predicate Warned(fd: int, p: Progress, log: seq<SendResult>)
      reads this`exchanges, kernel`wire, kernel`sendLog
    {
      fd in kernel.wire && Warning(p, OwedTo(fd), kernel.wire[fd], kernel.sendLog, log)
    }

    /** Receiving from `fd` went on until it was closed or had no more. */
    ghost predicate Drained(fd: int, log: seq<RecvResult>)
      reads this`parsers, kernel`recvLog
    {
      && log < kernel.recvLog
      && (forall i :: |log| <= i < |kernel.recvLog| - 1 ==>
           kernel.recvLog[i].Received? || kernel.recvLog[i].RecvInterrupted?)
      && (fd in parsers ==> kernel.recvLog[|kernel.recvLog| - 1].RecvWouldBlock?)
    }

    // -------------------------------------------------------------- sending

    method CloseClient(fd: int)
      requires OthersOk(fd)
      modifies this`parsers, this`outbox, this`watchFlags, kernel`interest
      ensures ClientsOk()
      ensures parsers == old(parsers) - {fd}
    {
      hide Good, Concat, Answers;
      kernel.Close(fd);
      parsers := parsers - {fd};
      outbox := outbox - {fd};
      watchFlags := watchFlags - {fd};
      forall g | g in parsers ensures ClientOk(g) { assert old(ClientOk(g)); }
    }

    method UpdateWatch(fd: int)
      requires OthersOk(fd) && fd in parsers
      requires fd in outbox ==> outbox[fd] != []
      modifies this`watchFlags, kernel`interest
      ensures OthersOk(fd) && fd in watchFlags && watchFlags[fd] == if fd in outbox then ReadWrite else ReadOnly
    {
      hide Good, Concat, Answers;
      var flags := if fd in outbox && outbox[fd] != [] then ReadWrite else ReadOnly;
      if fd in watchFlags && watchFlags[fd] == flags {
        return;
      }
      kernel.Watch(fd, flags);
      watchFlags := watchFlags[fd := flags];
    }

    /** One turn of the send loop: drop a finished chunk, or send from the front one. */
    method SendTurn(fd: int) returns (r: SendResult)
      requires OthersOk(fd) && fd in parsers && fd in outbox && outbox[fd] != []
      requires Exact(kernel.wire[fd], outbox[fd], AnswersTo(fd))
      modifies this`outbox, kernel`sends, kernel`wire, kernel`failures, kernel`sendLog
      ensures OthersOk(fd) && fd in outbox && Exact(kernel.wire[fd], outbox[fd], AnswersTo(fd))
      ensures |outbox[fd]| <= |old(outbox[fd])| && |kernel.sends| <= |old(kernel.sends)|
      ensures r.Sent? || r.SendInterrupted? ==>
                |kernel.sends| < |old(kernel.sends)| || |outbox[fd]| < |old(outbox[fd])|
      ensures r.SendWouldBlock? ==> outbox[fd] != [] && Unsent(outbox[fd][0]) != [] && Blocked(old(kernel.sendLog))
      ensures old(kernel.sendLog) <= kernel.sendLog
      ensures kernel.failures == old(kernel.failures) + if r.SendBroken? then 1 else 0
    {
      hide Good, Concat, Answers, Unsent, NextPart, PartBytes, Advance, ValidChunk;
      var queue := outbox[fd];
      var chunk := queue[0];
      assert ValidChunk(chunk);
      DoneIsSent(chunk);
      if NextPart(chunk) == Part.Done {
        FrontDone(kernel.wire[fd], queue, AnswersTo(fd));
        outbox := outbox[fd := queue[1..]];
        return Sent(0);
      }
      var bytes := PartBytes(chunk);
      assert bytes != [] by { SomeBytes(chunk); }
      r := kernel.Send(fd, bytes);
      if r.Sent? {
        var moved := Advance(chunk, r.count);
        AdvanceSends(chunk, r.count);
        FrontAdvanced(queue, moved, old(kernel.wire[fd]), bytes[..r.count], AnswersTo(fd));
        outbox := outbox[fd := queue[0 := moved]];
      }
    }

    /** Moving bytes from the front chunk to the wire leaves the stream as it was. */
    static lemma FrontAdvanced(queue: seq<OutChunk>, c: OutChunk, wire: Bytes, sent: Bytes, answers: seq<Bytes>)
      requires queue != [] && Exact(wire, queue, answers) && ValidChunk(c) && Unsent(queue[0]) == sent + Unsent(c)
      ensures Exact(wire + sent, queue[0 := c], answers)
    {
      hide Unsent, ValidChunk, Concat;
      assert queue[0 := c][1..] == queue[1..];
      Regroup(wire, sent, Unsent(c), Pending(queue[1..]));
    }

    /** So does dropping a front chunk that is sent to the end. */
    static lemma FrontDone(wire: Bytes, queue: seq<OutChunk>, answers: seq<Bytes>)
      requires queue != [] && Exact(wire, queue, answers) && Unsent(queue[0]) == []
      ensures Exact(wire, queue[1..], answers)
    {
      hide Unsent, ValidChunk, ValidQueue, Aligned, Concat, Pending;
      AlignedRest(queue, answers);
      PendingRest(queue);
    }

    static lemma AlignedRest(queue: seq<OutChunk>, answers: seq<Bytes>)
      requires queue != [] && ValidQueue(queue) && Aligned(queue, answers)
      ensures ValidQueue(queue[1..]) && Aligned(queue[1..], answers)
    {
      hide Unsent, ValidChunk;
      var rest := queue[1..];
      forall j | 1 <= j < |rest| ensures Unsent(rest[j]) == answers[|answers| - |rest| + j] {
        assert rest[j] == queue[j + 1];
      }
      if rest != [] { assert rest[0] == queue[1]; }
    }

    static lemma Regroup(a: Bytes, b: Bytes, c: Bytes, d: Bytes)
      ensures a + b + (c + d) == a + (b + c + d)
    {
    }

    /** The send loop: until the outbox is empty, the socket is full, or the socket is broken. */
    method SendLoop(fd: int) returns (broken: bool)
      requires OthersOk(fd) && fd in parsers && fd in outbox && |outbox[fd]| <= MAX_QUEUED
      requires Exact(kernel.wire[fd], outbox[fd], AnswersTo(fd))
      modifies this`outbox, kernel`sends, kernel`wire, kernel`failures, kernel`sendLog
      ensures OthersOk(fd) && fd in outbox && |outbox[fd]| <= MAX_QUEUED
      ensures Exact(kernel.wire[fd], outbox[fd], AnswersTo(fd))
      ensures !broken && outbox[fd] != [] ==> Waiting(outbox[fd]) && Blocked(old(kernel.sendLog))
      ensures |kernel.sends| <= |old(kernel.sends)| && old(kernel.sendLog) <= kernel.sendLog
      ensures kernel.failures == old(kernel.failures) + if broken then 1 else 0
    {
      hide Good, Concat, Answers, Pending, ValidQueue;
      while outbox[fd] != []
        invariant OthersOk(fd) && fd in outbox && Exact(kernel.wire[fd], outbox[fd], AnswersTo(fd))
        invariant |outbox[fd]| <= MAX_QUEUED && |kernel.sends| <= |old(kernel.sends)|
        invariant kernel.failures == old(kernel.failures) && old(kernel.sendLog) <= kernel.sendLog
        decreases |kernel.sends|, |outbox[fd]|
      {
        var r := SendTurn(fd);
        if r.SendWouldBlock? {
          return false;
        }
        if r.SendBroken? {
          return true;
        }
      }
      return false;
    }

    /** Sends what it can; an outbox sent to the end is dropped, and a broken socket closes the client. */
    method TrySend(fd: int)
      requires OthersOk(fd) && fd in parsers
      requires if fd in outbox then Exact(kernel.wire[fd], outbox[fd], AnswersTo(fd)) && |outbox[fd]| <= MAX_QUEUED
               else ClientOk(fd)
      modifies this`parsers, this`outbox, this`watchFlags
      modifies kernel`sends, kernel`wire, kernel`failures, kernel`sendLog, kernel`interest
      ensures ClientsOk() && fd in kernel.wire && kernel.wire[fd] <= OwedTo(fd)
      ensures parsers == if kernel.failures > old(kernel.failures) then old(parsers) - {fd} else old(parsers)
      ensures |kernel.sends| <= |old(kernel.sends)| && old(kernel.failures) <= kernel.failures
      ensures old(kernel.sendLog) <= kernel.sendLog
      ensures !Behind(fd) && (fd in parsers && fd in outbox ==> Blocked(old(kernel.sendLog)))
    {
      hide Concat, Answers, Pending, ValidQueue, Good, ClientsOk, ClientOk, BehindBy;
      if fd !in outbox {
        Everyone(fd);
        NoneBehind(fd);
        return;
      }
      var broken := SendLoop(fd);
      NotBehind(kernel.wire[fd], outbox[fd], AnswersTo(fd));
      if broken {
        CloseClient(fd);
        return;
      }
      Settled(fd);
    }

    /** The end of `try_send`: an outbox sent to the end is dropped, and the socket watched accordingly. */
    method Settled(fd: int)
      requires OthersOk(fd) && fd in parsers && fd in outbox
      requires Exact(kernel.wire[fd], outbox[fd], AnswersTo(fd)) && (outbox[fd] != [] ==> Waiting(outbox[fd]))
      modifies this`outbox, this`watchFlags, kernel`interest
      ensures ClientsOk() && (fd in outbox ==> old(outbox[fd]) != [])
    {
      hide Concat, Answers, Pending, ValidQueue, Good, Exact, Waiting;
      ghost var queue := outbox[fd];
      if outbox[fd] == [] {
        outbox := outbox - {fd};
      }
      UpdateWatch(fd);
      BecomesGood(queue, kernel.wire[fd], AnswersTo(fd));
      Everyone(fd);
    }

    lemma Everyone(fd: int)
      requires OthersOk(fd) && ClientOk(fd)
      ensures ClientsOk()
    {
      hide ClientOk;
    }

    static lemma BecomesGood(queue: seq<OutChunk>, wire: Bytes, answers: seq<Bytes>)
      requires Exact(wire, queue, answers) && (queue != [] ==> Waiting(queue))
      ensures Good(if queue == [] then None else Some(queue), Some(if queue == [] then ReadOnly else ReadWrite),
                   Some(wire), answers)
    {
    }

    /** Appends a response to a client's outbox and tries to send; a client too far behind is closed. */
    method QueueResponse(fd: int, response: Response, ghost e: Exchange)
      requires ClientsOk() && fd in parsers
      requires Wire(Finish(response)) == AnswerOf(maxValueSize, storage.limits, e)
      modifies this`parsers, this`outbox, this`watchFlags, this`exchanges
      modifies kernel`sends, kernel`wire, kernel`failures, kernel`sendLog, kernel`interest
      ensures ClientsOk() && Excused(fd, old(parsers), old(kernel.failures), old(kernel.sendLog))
      ensures Behind(fd) <==> fd in old(outbox) && |old(outbox)[fd]| == 1024
      ensures fd in parsers && fd in outbox ==> Blocked(old(kernel.sendLog))
      ensures exchanges == old(exchanges)[fd := old(exchanges)[fd] + [e]]
      ensures fd in kernel.wire && kernel.wire[fd] <= OwedTo(fd)
      ensures |kernel.sends| <= |old(kernel.sends)|
    {
      hide Concat, Answers, Finish, AnswerOf, Pending, Good, Wire;
      Enqueue(fd, response, e);
      if |outbox[fd]| > MAX_QUEUED {
        CloseClient(fd);
        return;
      }
      TrySend(fd);
    }

    static lemma GoodIsExact(queue: Option<seq<OutChunk>>, watch: Option<Interest>, wire: Option<Bytes>,
                             answers: seq<Bytes>)
      requires Good(queue, watch, wire, answers)
      ensures wire.Some? && Exact(wire.value, if queue.Some? then queue.value else [], answers)
    {
    }

    static lemma ExactSnoc(wire: Bytes, queue: seq<OutChunk>, answers: seq<Bytes>, r: Response)
      requires Exact(wire, queue, answers)
      ensures Exact(wire, queue + [NewChunk(r)], answers + [Wire(r)])
    {
      hide Wire, Unsent, ValidChunk, Aligned, NewChunk;
      PendingSnoc(queue, r);
      ConcatSnoc(answers, Wire(r));
      AlignedSnoc(queue, answers, r);
      assert wire + Pending(queue + [NewChunk(r)]) == wire + Pending(queue) + Wire(r);
    }

    static lemma AlignedSnoc(queue: seq<OutChunk>, answers: seq<Bytes>, r: Response)
      requires ValidQueue(queue) && Aligned(queue, answers)
      ensures ValidQueue(queue + [NewChunk(r)]) && Aligned(queue + [NewChunk(r)], answers + [Wire(r)])
    {
      NewIsUnsent(r);
      hide Wire, Unsent, ValidChunk, NewChunk;
      var queue', answers' := queue + [NewChunk(r)], answers + [Wire(r)];
      forall j | 1 <= j < |queue'| ensures Unsent(queue'[j]) == answers'[|answers'| - |queue'| + j] {
        if j < |queue| { assert queue'[j] == queue[j]; }
      }
      if queue != [] { assert queue'[0] == queue[0]; }
    }

    static lemma NewIsUnsent(r: Response)
      ensures ValidChunk(NewChunk(r)) && Unsent(NewChunk(r)) == Wire(r)
    {
    }

    method Enqueue(fd: int, response: Response, ghost e: Exchange)
      requires ClientsOk() && fd in parsers
      requires Wire(Finish(response)) == AnswerOf(maxValueSize, storage.limits, e)
      modifies this`outbox, this`exchanges
      ensures OthersOk(fd) && fd in outbox && Exact(kernel.wire[fd], outbox[fd], AnswersTo(fd))
      ensures |outbox[fd]| == 1 + if fd in old(outbox) then |old(outbox)[fd]| else 0
      ensures fd in old(outbox) ==> |old(outbox)[fd]| <= MAX_QUEUED
      ensures fd in old(outbox) && |old(outbox)[fd]| == MAX_QUEUED ==> Behind(fd)
      ensures exchanges == old(exchanges)[fd := old(exchanges)[fd] + [e]]
    {
      hide Finish, AnswerOf, Wire, Good, Concat, Answers, Pending, ValidQueue, Exact;
      var finished := Finish(response);
      var queue := if fd in outbox then outbox[fd] else [];
      ghost var es := exchanges[fd];
      assert ClientOk(fd);
      GoodIsExact(Lookup(outbox, fd), Lookup(watchFlags, fd), Lookup(kernel.wire, fd), AnswersTo(fd));
      GoodIsBounded(Lookup(outbox, fd), Lookup(watchFlags, fd), Lookup(kernel.wire, fd), AnswersTo(fd));
      AnswersSnoc(maxValueSize, storage.limits, es, e);
      ExactSnoc(kernel.wire[fd], queue, AnswersTo(fd), finished);
      if |queue| == MAX_QUEUED { PushedBehind(kernel.wire[fd], queue, AnswersTo(fd), Wire(finished)); }
      exchanges := exchanges[fd := es + [e]];
      outbox := outbox[fd := queue + [NewChunk(finished)]];
    }

    // -------------------------------------------------------------- commands

    /** The values that the log stands for now. */
    ghost function Known(): map<Bytes, Bytes>
      requires aof != null && begun <= aof.lines
      reads aof
    {
      Onward(base, aof.lines[|begun|..])
    }

    /** The log accounts for every stored value, and for nothing else unless something was evicted or expired. */
    ghost predicate Stored()
      reads storage, storage.policy, storage.policy.list, storage.ttl, aof
    {
      && storage.Valid() && this !in storage.Repr() && kernel !in storage.Repr()
      && (aof != null ==> aof !in storage.Repr() && begun <= aof.lines && Accounted(Known(), storage.Abs()))
    }

    /** The log is what it was at the start, and then exactly what the history has logged. */
    ghost predicate Journaled(history: seq<Event>)
      reads aof
    {
      aof != null ==> aof.lines == begun + Logged(maxValueSize, storage.limits, history)
    }

    /** Clients are answered as if one at a time, in one history that leads to the cache as it is, and is logged. */
    ghost predicate InTurn()
      reads this`history, this`exchanges, storage, storage.policy, storage.policy.list, storage.ttl, aof
    {
      && Serial(maxValueSize, storage.limits, start, history, exchanges, storage.Abs())
      && Journaled(history)
    }

    /** What a command answered and did, against what it should. */
    ghost predicate Executed(cmd: Command, response: Response, found: Surroundings, before: Cache, after: Cache) {
      && Plausible(before, cmd, found)
      && response == Respond(maxValueSize, storage.limits, before, cmd, found)
      && after == Effect(maxValueSize, storage.limits, before, cmd, found)
    }

    /** The checks of the SET branch, in their order: the arguments, the options, the storage's own limits. */
    method ReadSet(args: seq<Bytes>, capacity: nat, buckets: nat, ghost x: Surroundings) returns (check: SetCheck)
      requires x.capacity == capacity && x.buckets == buckets && (|args| >= 2 ==> |args[1]| <= capacity)
      ensures check == CheckSet(maxValueSize, storage.limits, args, x)
      ensures check.Proceed? ==>
                var p := check.put; p.Valid(buckets) && CanStore(storage.limits, p.key, p.value, p.capacity)
    {
      hide ReadOptions, CanStore;
      if |args| < 2 {
        return Refuse(SET_ARITY);
      }
      if |args[0]| > MAX_KEY_SIZE {
        return Refuse(KEY_TOO_LARGE);
      }
      if |args[1]| > maxValueSize {
        return Refuse(VALUE_TOO_LARGE);
      }
      var options := ScanOptions(args);
      if options == SyntaxError {
        return Refuse(SYNTAX_ERROR);
      }
      if options == BadExpire {
        return Refuse(BAD_EXPIRE);
      }
      if options.Unsupported? {
        return Refuse(OPTION_ERROR + options.option);
      }
      if !CanStore(storage.limits, args[0], args[1], capacity) {
        return Refuse(OVER_LIMIT);
      }
      return Proceed(Put(args[0], args[1], capacity, options.seconds, buckets));
    }

    /** The SET branch: what passes the checks is logged, and then stored. */
    method ExecuteSet(args: seq<Bytes>) returns (response: Response, ghost found: Surroundings)
      requires Stored()
      modifies storage.Repr(), aof
      ensures Stored() && fresh(storage.Repr() - old(storage.Repr()))
      ensures Executed(Command(SET, [], args), response, found, old(storage.Abs()), storage.Abs())
      ensures aof != null ==>
                aof.lines == old(aof.lines) +
                             LogLines(maxValueSize, storage.limits, old(storage.Abs()), Command(SET, [], args), found)
    {
      assert storage.Abs().buckets == storage.buckets;
      hide Stored, Storage.Abs, CheckSet, CanStore, CacheModel.Set, Respond, Effect, LogLines;
      var spare: nat, grown: nat, now: nat := *, *, *;
      var capacity, buckets := spare + if |args| >= 2 then |args[1]| else 0, storage.buckets + grown;
      found := Surroundings(capacity, buckets, now, []);
      var check := ReadSet(args, capacity, buckets, found);
      SetOutcome(maxValueSize, storage.limits, storage.Abs(), args, found);
      match check
      case Refuse(reason) =>
        response := Text(reason);
      case Proceed(p) =>
        LogAndStore(p, now);
        response := Text(OK);
    }

    method LogAndStore(p: Put, now: nat)
      requires Stored() && p.Valid(storage.buckets) && CanStore(storage.limits, p.key, p.value, p.capacity)
      modifies storage.Repr(), aof
      ensures Stored() && fresh(storage.Repr() - old(storage.Repr()))
      ensures storage.Abs() == CacheModel.Set(old(storage.Abs()), storage.limits, p, now)
      ensures aof != null ==> aof.lines == old(aof.lines) + [SetLine(p.key, p.value, p.ttl)]
    {
      hide Storage.Valid, Storage.Abs, Onward, Accounted, CacheModel.Set, CanStore, Consistent;
      ghost var c := storage.Abs();
      storage.AbsConsistent();
      if aof != null {
        LineReadsBack(base, aof.lines[|begun|..], p.key, p.value, p.ttl);
        SetAccounted(Known(), c, storage.limits, p, now);
        assert (aof.lines + [SetLine(p.key, p.value, p.ttl)])[|begun|..] ==
               aof.lines[|begun|..] + [SetLine(p.key, p.value, p.ttl)];
        aof.LogSet(p.key, p.value, p.ttl);
      }
      var ok := storage.Set(p, now);
    }

    // The other branches of the command switch.

    method ExecuteCommand(cmd: Command) returns (response: Response, ghost found: Surroundings)
      requires Stored()
      modifies storage.Repr(), aof
      ensures Stored() && fresh(storage.Repr() - old(storage.Repr()))
      ensures Executed(cmd, response, found, old(storage.Abs()), storage.Abs())
      ensures aof != null ==>
                aof.lines == old(aof.lines) +
                             LogLines(maxValueSize, storage.limits, old(storage.Abs()), cmd, found)
    {
      assert storage.Abs().buckets == storage.buckets;
      hide Storage.Valid, Storage.Abs, Onward, CheckSet, Accounted, CommandTypeOf, Get, Del;
      var now: nat := *;
      var metrics: Bytes := *;
      found := Surroundings(0, storage.buckets, now, metrics);
      if cmd.kind == SET {
        response, found := ExecuteSet(cmd.args);
      } else if cmd.kind == GET && cmd.args != [] {
        response := ExecuteGet(cmd.args[0], now);
      } else if cmd.kind == DEL && cmd.args != [] {
        response := ExecuteDel(cmd.args[0]);
      } else {
        match cmd.kind
        case PING => response := if cmd.args == [] then Text(PONG) else BulkString(cmd.args[0]);
        case SELECT => response := Text(OK);
        case GET => response := Text(GET_ARITY);
        case DEL => response := Text(DEL_ARITY);
        case METRICS => response := Text(BulkHeader(|metrics|) + metrics + CRLF);
        case UNKNOWN => response := if cmd.verb == [] then Text([]) else Text(VERB_ERROR + cmd.verb + "'");
      }
    }

    method ExecuteGet(key: Bytes, now: nat) returns (response: Response)
      requires Stored()
      modifies storage.Repr()
      ensures Stored() && fresh(storage.Repr() - old(storage.Repr()))
      ensures storage.Abs() == Get(old(storage.Abs()), key, now).0
      ensures response ==
              match Get(old(storage.Abs()), key, now).1 { case Some(v) => BulkString(v) case None => Text(NIL) }
      ensures aof != null && response != Text(NIL) ==>
                begun <= aof.lines && key in Known() && response == BulkString(Known()[key])
    {
      hide Storage.Valid, Storage.Abs, Onward, Accounted, Get;
      if aof != null { GetAccounted(Known(), storage.Abs(), key, now); }
      var blob := storage.Get(key, now);
      response := match blob { case Some(v) => BulkString(v) case None => Text(NIL) };
    }

    method ExecuteDel(key: Bytes) returns (response: Response)
      requires Stored()
      modifies storage.Repr(), aof
      ensures Stored() && fresh(storage.Repr() - old(storage.Repr()))
      ensures storage.Abs() == Del(old(storage.Abs()), key).0
      ensures response == if key in old(storage.Abs()).data then Text(ONE) else Text(ZERO)
      ensures aof != null ==>
                aof.lines == old(aof.lines) + (if key in old(storage.Abs()).data then [DelLine(key)] else [])
    {
      hide Storage.Valid, Storage.Abs, Onward, Accounted;
      ghost var c := storage.Abs();
      if aof != null && key in c.data {
        LineReadsBack(base, aof.lines[|begun|..], key, [], 0);
        DelAccounted(Known(), c, key);
        assert (aof.lines + [DelLine(key)])[|begun|..] == aof.lines[|begun|..] + [DelLine(key)];
      }
      var removed := storage.Del(key);
      if removed && aof != null {
        aof.LogDel(key);
      }
      response := if removed then Text(ONE) else Text(ZERO);
    }

    // -------------------------------------------------------------- reading

    ghost predicate ParserOk(fd: int)
      requires fd in parsers
      reads this`parsers, this`read, this`exchanges, parsers[fd]
    {
      fd in read && fd in exchanges && Parsing(parsers[fd], ParseLimit(), read[fd], ArgvsOf(exchanges[fd]))
    }

    /** Every client has a parser of its own, out of the storage's reach. */
    ghost predicate OwnParsers()
      reads this`parsers, storage, storage.policy
    {
      && (forall fd :: fd in parsers ==> parsers[fd] !in storage.Repr())
      && (forall fd, g :: fd in parsers && g in parsers && fd != g ==> parsers[fd] != parsers[g])
    }

    /** What holds whenever the event loop waits. */
    ghost predicate Valid()
      reads this`parsers, this`outbox, this`watchFlags, this`read, this`exchanges, this`history
      reads kernel`wire, kernel`interest, storage, storage.policy, storage.policy.list, storage.ttl, aof
      reads set g | g in parsers :: parsers[g]
    {
      ClientsOk() && Stored() && InTurn() && OwnParsers() && forall g :: g in parsers ==> ParserOk(g)
    }

    /** As `Valid`, but for the parser of one client in the middle of an operation. */
    ghost predicate ValidBut(fd: int)
      reads this`parsers, this`outbox, this`watchFlags, this`read, this`exchanges, this`history
      reads kernel`wire, kernel`interest, storage, storage.policy, storage.policy.list, storage.ttl, aof
      reads set g | g in parsers && g != fd :: parsers[g]
    {
      && ClientsOk() && Stored() && InTurn() && OwnParsers()
      && (fd in parsers ==> fd in read)
      && forall g :: g in parsers && g != fd ==> ParserOk(g)
    }

    lemma StoredApart()
      requires Stored()
      ensures this !in storage.Repr() && kernel !in storage.Repr() && (aof != null ==> aof !in storage.Repr())
    {
    }

    lemma ServerApart()
      requires Valid()
      ensures this !in storage.Repr() && kernel !in storage.Repr() && (aof != null ==> aof !in storage.Repr())
    {
    }

    lemma ClientKnown(fd: int)
      requires Valid() && fd in parsers
      ensures ParserOk(fd) && parsers[fd] !in storage.Repr() && fd in kernel.wire && !Behind(fd)
    {
      NoneBehind(fd);
    }

    /** The bytes read from a client are those its parser has taken. */
    ghost method SetRead(fd: int, bytes: Bytes)
      requires ValidBut(fd)
      requires fd in parsers ==>
                 fd in exchanges && Parsing(parsers[fd], ParseLimit(), bytes, ArgvsOf(exchanges[fd]))
      modifies this`read
      ensures Valid() && read == old(read)[fd := bytes]
    {
      hide Parsing, ClientsOk, Stored, Serial;
      StoredApart();
      read := read[fd := bytes];
      forall g | g in parsers ensures ParserOk(g) {
        if g != fd { assert old(ParserOk(g)); }
      }
    }

    /** Executes a command and queues its response. */
    method Answer(fd: int, cmd: Command, ghost argv: seq<Bytes>)
      requires ClientsOk() && Stored() && InTurn() && fd in parsers && cmd == Classify(argv)
      modifies this`parsers, this`outbox, this`watchFlags, this`exchanges, this`history
      modifies kernel`sends, kernel`wire, kernel`failures, kernel`sendLog, kernel`interest, storage.Repr(), aof
      ensures ClientsOk() && Stored() && InTurn()
      ensures Excused(fd, old(parsers), old(kernel.failures), old(kernel.sendLog))
      ensures exists e: Exchange :: NewExchange(fd, argv, e, old(storage.Abs()), old(exchanges), old(history))
      ensures fd in kernel.wire && kernel.wire[fd] <= OwedTo(fd)
      ensures |kernel.sends| <= |old(kernel.sends)| && fresh(storage.Repr() - old(storage.Repr()))
    {
      hide Good, Concat, Answers, Stored, Storage.Abs, ClientsOk, Serial, AnswerOf, Wire, Finish, Logged;
      StoredApart();
      ghost var before := storage.Abs();
      var response;
      ghost var e;
      ExchangesKnown(fd);
      response, e := ExecuteInTurn(fd, cmd, argv);
      QueueResponse(fd, response, e);
      history := history + [Answering(e)];
      assert NewExchange(fd, argv, e, before, old(exchanges), old(history));
    }

    /** Executes a command, as the next event of the history. */
    method ExecuteInTurn(fd: int, cmd: Command, ghost argv: seq<Bytes>) returns (response: Response, ghost e: Exchange)
      requires Stored() && InTurn() && fd in exchanges && cmd == Classify(argv)
      modifies storage.Repr(), aof
      ensures Stored() && fresh(storage.Repr() - old(storage.Repr()))
      ensures e.argv == argv && e.before == old(storage.Abs())
      ensures Wire(Finish(response)) == AnswerOf(maxValueSize, storage.limits, e)
      ensures fd in exchanges && Serial(maxValueSize, storage.limits, start, history + [Answering(e)],
                                        exchanges[fd := exchanges[fd] + [e]], storage.Abs())
      ensures Journaled(history + [Answering(e)])
    {
      hide Stored, Storage.Abs, Storage.Valid, Respond, Effect, LogLines, Serial, AnswerOf, Wire, Finish, After, Logged,
        Classify, Executed;
      StoredApart();
      ghost var before, lines := storage.Abs(), if aof != null then aof.lines else [];
      ghost var found;
      response, found := ExecuteCommand(cmd);
      e := Exchange(argv, before, found);
      ExecutedAnswer(e, response, storage.Abs());
      SerialAnswer(maxValueSize, storage.limits, start, history, exchanges, fd, e);
      StillJournaled(e, lines);
    }

    lemma StillJournaled(e: Exchange, lines: seq<Record>)
      requires aof != null ==>
                 && lines == begun + Logged(maxValueSize, storage.limits, history)
                 && aof.lines == lines + LogLines(maxValueSize, storage.limits, e.before, Classify(e.argv), e.found)
      ensures Journaled(history + [Answering(e)])
    {
      hide LogLines, Logged, Classify;
      LoggedSnoc(maxValueSize, storage.limits, history, Answering(e));
    }

    lemma ExecutedAnswer(e: Exchange, response: Response, after: Cache)
      requires Executed(Classify(e.argv), response, e.found, e.before, after)
      ensures Wire(Finish(response)) == AnswerOf(maxValueSize, storage.limits, e) && Sound(Answering(e))
      ensures after == After(maxValueSize, storage.limits, Answering(e))
    {
    }

    /** What a client of the server was sent is a prefix of what it is owed, and it is not behind. */
    lemma NoneBehind(fd: int)
      requires ClientsOk() && fd in parsers
      ensures fd in kernel.wire && kernel.wire[fd] <= OwedTo(fd) && !Behind(fd)
    {
      hide Waiting, Concat, Answers, Exact;
      assert ClientOk(fd);
      GoodIsPrefix(Lookup(outbox, fd), Lookup(watchFlags, fd), Lookup(kernel.wire, fd), AnswersTo(fd));
      assert fd in outbox ==> |outbox[fd]| <= MAX_QUEUED by {
        GoodIsBounded(Lookup(outbox, fd), Lookup(watchFlags, fd), Lookup(kernel.wire, fd), AnswersTo(fd));
      }
      NotBehind(kernel.wire[fd], if fd in outbox then outbox[fd] else [], AnswersTo(fd));
    }

    lemma NotBehindBut(fd: int)
      requires ValidBut(fd) && fd in parsers
      ensures !Behind(fd)
    {
      NoneBehind(fd);
    }

    lemma OwedSoFar(fd: int)
      requires ValidBut(fd) && fd in parsers
      ensures fd in kernel.wire && kernel.wire[fd] <= OwedTo(fd)
    {
      NoneBehind(fd);
    }

    lemma ExchangesKnown(fd: int)
      requires ClientsOk() && fd in parsers
      ensures fd in exchanges
    {
    }

    /** A command of `fd` was answered from the cache as it was, and is the latest event. */
    ghost predicate NewExchange(fd: int, argv: seq<Bytes>, e: Exchange, before: Cache,
                                exchanges0: map<int, seq<Exchange>>, history0: seq<Event>)
      reads this`exchanges, this`history
    {
      && e.argv == argv && e.before == before && history == history0 + [Answering(e)]
      && fd in exchanges0 && exchanges == exchanges0[fd := exchanges0[fd] + [e]]
    }

    /** The commands answered, and the one just read unless it is blank. */
    ghost function WithLatest(fd: int, status: Status, argv: seq<Bytes>): seq<seq<Bytes>>
      requires fd in exchanges
      reads this`exchanges
    {
      ArgvsOf(exchanges[fd]) + if status == Ready && !IsBlank(Classify(argv)) then [argv] else []
    }

    method Parse(fd: int, data: Bytes, pos: nat)
      returns (status: Status, pos': nat, cmd: Command, ghost argv: seq<Bytes>)
      requires fd in parsers && ParserOk(fd) && pos < |data|
      modifies parsers[fd]
      ensures pos < pos' <= |data| && (status == NeedMore ==> pos' == |data|)
      ensures status == Error <==> FeedAll(ParseLimit(), START, read[fd] + data[pos..pos']).state.Failed?
      ensures status == Error ==>
                FeedAll(ParseLimit(), START, read[fd] + data[pos..pos']).state == Failed(parsers[fd].error)
      ensures status == Ready ==> cmd == Classify(argv)
      ensures status != Error ==>
                Parsing(parsers[fd], ParseLimit(), read[fd] + data[pos..pos'], WithLatest(fd, status, argv))
    {
      hide Answered, Run;
      var parser := parsers[fd];
      ghost var p, limit := parser.At(), ParseLimit();
      assert !Stopped(p);
      StreamGoesOn(limit, read[fd], p, data[pos..]);
      RunMoves(limit, p, data[pos..]);
      status, pos', cmd, argv := parser.Consume(data, pos);
      assert data[pos..][..pos' - pos] == data[pos..pos'];
      NothingLeft(limit, p, data[pos..]);
    }

    static lemma NothingLeft(limit: nat, p: Progress, s: Bytes)
      ensures !Stopped(Run(limit, p, s).state) ==> Run(limit, p, s).used == |s|
    {
    }

    /** One call of `consume`; the client's bytes are counted as read later. */
    method ParseNext(fd: int, data: Bytes, pos: nat)
      returns (status: Status, pos': nat, cmd: Command, ghost argv: seq<Bytes>)
      requires Valid() && fd in parsers && pos < |data|
      modifies parsers[fd]
      ensures ValidBut(fd) && pos < pos' <= |data| && (status == NeedMore ==> pos' == |data|)
      ensures status == Error <==> FeedAll(ParseLimit(), START, read[fd] + data[pos..pos']).state.Failed?
      ensures status == Error ==>
                FeedAll(ParseLimit(), START, read[fd] + data[pos..pos']).state == Failed(parsers[fd].error)
      ensures status == Ready ==> cmd == Classify(argv)
      ensures fd in exchanges && (status != Error ==>
                Parsing(parsers[fd], ParseLimit(), read[fd] + data[pos..pos'], WithLatest(fd, status, argv)))
    {
      hide Parsing, ClientsOk, Stored, Serial, FeedAll, Classify;
      ClientKnown(fd);
      StoredApart();
      status, pos', cmd, argv := Parse(fd, data, pos);
      forall g | g in parsers && g != fd ensures ParserOk(g) { assert old(ParserOk(g)); }
    }

    /** A protocol error is told to the client past its outbox, and the client is closed. */
    method Reject(fd: int, message: string)
      requires ValidBut(fd) && fd in parsers && fd in kernel.wire
      modifies this`parsers, this`outbox, this`watchFlags
      modifies kernel`sends, kernel`wire, kernel`failures, kernel`sendLog, kernel`interest
      ensures Valid() && parsers == old(parsers) - {fd}
      ensures fd in kernel.wire &&
              Told(message, kernel.wire[fd], kernel.sendLog, old(kernel.wire[fd]), old(kernel.sendLog))
    {
      hide Good, Concat, Answers, Parsing, Stored, InTurn;
      var text := ProtocolError(message);
      var sent := kernel.Send(fd, text);
      assert text[..0] == [];
      CloseClient(fd);
      forall g | g in parsers ensures ParserOk(g) { assert old(ParserOk(g)); }
    }

    /** `Answer`, with the other clients' parsers in view. */
    method AnswerCommand(fd: int, cmd: Command, ghost argv: seq<Bytes>)
      requires ValidBut(fd) && fd in parsers && cmd == Classify(argv)
      modifies this`parsers, this`outbox, this`watchFlags, this`exchanges, this`history
      modifies kernel`sends, kernel`wire, kernel`failures, kernel`sendLog, kernel`interest, storage.Repr(), aof
      ensures ValidBut(fd) && fresh(storage.Repr() - old(storage.Repr()))
      ensures Excused(fd, old(parsers), old(kernel.failures), old(kernel.sendLog))
      ensures exists e: Exchange :: NewExchange(fd, argv, e, old(storage.Abs()), old(exchanges), old(history))
      ensures fd in kernel.wire && kernel.wire[fd] <= OwedTo(fd)
    {
      hide Parsing, ClientsOk, Stored, Serial, Concat, Answers, Classify, Storage.Abs;
      StoredApart();
      Answer(fd, cmd, argv);
      forall g | g in parsers && g != fd ensures ParserOk(g) { assert old(ParserOk(g)); }
    }

    /** A command that parsed is answered, unless it is blank, and its bytes count as read. */
    method Settle(fd: int, status: Status, cmd: Command, ghost argv: seq<Bytes>, ghost chunk: Bytes)
      requires ValidBut(fd) && fd in parsers && fd in read && fd in exchanges && parsers[fd] !in storage.Repr()
      requires (status == Ready ==> cmd == Classify(argv)) && status != Error
      requires Parsing(parsers[fd], ParseLimit(), read[fd] + chunk, WithLatest(fd, status, argv))
      modifies this, kernel`sends, kernel`wire, kernel`failures, kernel`sendLog, kernel`interest, storage.Repr(), aof
      ensures Valid() && fresh(storage.Repr() - old(storage.Repr()))
      ensures Excused(fd, old(parsers), old(kernel.failures), old(kernel.sendLog))
      ensures read == old(read)[fd := old(read)[fd] + chunk] && old(history) <= history
      ensures fd !in parsers ==> fd in kernel.wire && kernel.wire[fd] <= OwedTo(fd)
    {
      hide Parsing, Valid, ValidBut, Concat, Answers, Classify, Storage.Abs;
      ghost var es := exchanges[fd];
      NotBehindBut(fd);
      assert ArgvsOf(es) + [] == ArgvsOf(es);
      if status == Ready && !IsBlank(cmd) {
        AnswerCommand(fd, cmd, argv);
        ghost var e: Exchange :| NewExchange(fd, argv, e, old(storage.Abs()), old(exchanges), old(history));
        ArgvsSnoc(es, e);
      }
      SetRead(fd, read[fd] + chunk);
    }

    // -------------------------------------------------------------- the sweeper

    /** The sweeper collects while `fd` is being served, or while nobody is. */
    method SweeperCollects(fd: int, now: nat) returns (keys: seq<Bytes>)
      requires ValidBut(fd)
      modifies this`history, storage.Repr()
      ensures ValidBut(fd) && (old(Valid()) ==> Valid()) && fresh(storage.Repr() - old(storage.Repr()))
      ensures storage.Abs() == AfterCollect(old(storage.Abs()), now)
      ensures history == old(history) + [Collecting(old(storage.Abs()), now)]
    {
      hide Parsing, Stored, ClientsOk, Storage.Abs, Storage.Valid, Serial, AfterCollect;
      StoredApart();
      ghost var before := storage.Abs();
      SerialSweep(maxValueSize, storage.limits, start, history, exchanges, Collecting(before, now));
      LoggedSnoc(maxValueSize, storage.limits, history, Collecting(before, now));
      keys := CollectStored(now);
      history := history + [Collecting(before, now)];
    }

    method CollectStored(now: nat) returns (keys: seq<Bytes>)
      requires Stored()
      modifies storage.Repr()
      ensures Stored() && storage.Repr() <= old(storage.Repr())
      ensures storage.Abs() == AfterCollect(old(storage.Abs()), now)
    {
      hide Accounted, Onward;
      if aof != null { SweepAccounted(Known(), storage.Abs(), now, []); }
      keys := storage.CollectExpired(now);
    }

    /** Likewise for the callback, on whatever key. */
    method SweeperCallsBack(fd: int, key: Bytes)
      requires ValidBut(fd)
      modifies this`history, storage.Repr()
      ensures ValidBut(fd) && (old(Valid()) ==> Valid()) && fresh(storage.Repr() - old(storage.Repr()))
      ensures storage.Abs() == ExpireKey(old(storage.Abs()), key)
      ensures history == old(history) + [CallingBack(old(storage.Abs()), key)]
    {
      hide Parsing, Stored, ClientsOk, Storage.Abs, Storage.Valid, Serial, ExpireKey;
      StoredApart();
      ghost var before := storage.Abs();
      SerialSweep(maxValueSize, storage.limits, start, history, exchanges, CallingBack(before, key));
      LoggedSnoc(maxValueSize, storage.limits, history, CallingBack(before, key));
      ExpireStored(key);
      history := history + [CallingBack(before, key)];
    }

    method ExpireStored(key: Bytes)
      requires Stored()
      modifies storage.Repr()
      ensures Stored() && storage.Repr() <= old(storage.Repr())
      ensures storage.Abs() == ExpireKey(old(storage.Abs()), key)
    {
      hide Accounted, Onward;
      if aof != null { SweepAccounted(Known(), storage.Abs(), 0, key); }
      storage.Expire(key);
    }

    /** Any number of the sweeper's steps, between two commands of `fd` or between two events. */
    method SweeperRuns(fd: int)
      requires ValidBut(fd)
      modifies this`history, storage.Repr()
      ensures ValidBut(fd) && (old(Valid()) ==> Valid()) && fresh(storage.Repr() - old(storage.Repr()))
      ensures old(history) <= history && (fd in parsers ==> parsers[fd] !in storage.Repr())
    {
      hide Valid, ValidBut, Storage.Abs, AfterCollect, ExpireKey;
      var steps: nat :| 0 <= steps;
      for i := 0 to steps
        invariant ValidBut(fd) && (old(Valid()) ==> Valid()) && fresh(storage.Repr() - old(storage.Repr()))
        invariant old(history) <= history
      {
        var callback: Option<Bytes> := *;
        var now: nat := *;
        match callback
        case None => var keys := SweeperCollects(fd, now);
        case Some(key) => SweeperCallsBack(fd, key);
      }
      ParserApart(fd);
    }

    lemma ParserApart(fd: int)
      requires ValidBut(fd)
      ensures fd in parsers ==> parsers[fd] !in storage.Repr()
    {
    }

    // -------------------------------------------------------------- one client's events

    /** `ParseNext`, and whatever the sweeper does before the command is answered. */
    method NextCommand(fd: int, data: Bytes, pos: nat)
      returns (status: Status, pos': nat, cmd: Command, ghost argv: seq<Bytes>)
      requires Valid() && fd in parsers && pos < |data|
      modifies this`history, storage.Repr(), parsers[fd]
      ensures ValidBut(fd) && fresh(storage.Repr() - old(storage.Repr())) && old(history) <= history
      ensures pos < pos' <= |data| && (status == NeedMore ==> pos' == |data|)
      ensures status == Error <==> FeedAll(ParseLimit(), START, read[fd] + data[pos..pos']).state.Failed?
      ensures status == Error ==>
                FeedAll(ParseLimit(), START, read[fd] + data[pos..pos']).state == Failed(parsers[fd].error)
      ensures status == Ready ==> cmd == Classify(argv)
      ensures fd in exchanges && parsers[fd] !in storage.Repr() && (status != Error ==>
                Parsing(parsers[fd], ParseLimit(), read[fd] + data[pos..pos'], WithLatest(fd, status, argv)))
    {
      hide Parsing, Valid, ValidBut, Classify, IsBlank, FeedAll;
      ClientKnown(fd);
      status, pos', cmd, argv := ParseNext(fd, data, pos);
      SweeperRuns(fd);
    }

    /** What follows a call of the parser: rejection, or an answer if there is one to give. */
    method Conclude(fd: int, status: Status, cmd: Command, ghost argv: seq<Bytes>, ghost chunk: Bytes)
      returns (turn: Turn)
      requires ValidBut(fd) && fd in parsers && fd in read && fd in exchanges && fd in kernel.wire
      requires parsers[fd] !in storage.Repr() && (status == Ready ==> cmd == Classify(argv))
      requires status != Error ==> Parsing(parsers[fd], ParseLimit(), read[fd] + chunk, WithLatest(fd, status, argv))
      modifies this, kernel`sends, kernel`wire, kernel`failures, kernel`sendLog, kernel`interest, storage.Repr(), aof
      ensures Valid() && fresh(storage.Repr() - old(storage.Repr())) && old(history) <= history
      ensures turn == Rejected <==> status == Error
      ensures turn == Rejected ==> read == old(read) && parsers == old(parsers) - {fd}
      ensures turn == Rejected ==> Warned(fd, Failed(old(parsers[fd].error)), old(kernel.sendLog))
      ensures turn != Rejected ==>
                && read == old(read)[fd := old(read)[fd] + chunk]
                && Excused(fd, old(parsers), old(kernel.failures), old(kernel.sendLog))
      ensures turn == Wait ==> status == NeedMore
      ensures turn == Continue || turn == Wait ==> parsers == old(parsers)
      ensures turn == Gone ==> parsers == old(parsers) - {fd} && fd in kernel.wire && kernel.wire[fd] <= OwedTo(fd)
    {
      hide Parsing, Valid, ValidBut, Concat, Answers, Classify, IsBlank;
      if status == Error {
        OwedSoFar(fd);
        Reject(fd, parsers[fd].error);
        return Rejected;
      }
      Settle(fd, status, cmd, argv, chunk);
      turn := if fd !in parsers then Gone else if status == Ready then Continue else Wait;
    }

    /** One turn of the parse loop: at most one command is taken off the chunk and answered. */
    method ReadCommand(fd: int, data: Bytes, pos: nat) returns (turn: Turn, pos': nat)
      requires Valid() && fd in parsers && pos < |data|
      modifies this, storage.Repr(), aof, parsers[fd]
      modifies kernel`sends, kernel`wire, kernel`failures, kernel`sendLog, kernel`interest
      ensures Valid() && pos < pos' <= |data| && fresh(storage.Repr() - old(storage.Repr()))
      ensures turn == Rejected <==> FeedAll(ParseLimit(), START, old(read)[fd] + data[pos..pos']).state.Failed?
      ensures turn == Rejected ==> read == old(read) && parsers == old(parsers) - {fd}
      ensures turn == Rejected ==>
                Warned(fd, FeedAll(ParseLimit(), START, old(read)[fd] + data[pos..pos']).state, old(kernel.sendLog))
      ensures turn != Rejected ==>
                && read == old(read)[fd := old(read)[fd] + data[pos..pos']]
                && Excused(fd, old(parsers), old(kernel.failures), old(kernel.sendLog))
      ensures turn == Wait ==> pos' == |data|
      ensures turn == Continue || turn == Wait ==> parsers == old(parsers)
      ensures turn == Gone ==> parsers == old(parsers) - {fd}
      ensures turn == Gone ==> fd in kernel.wire && kernel.wire[fd] <= OwedTo(fd)
      ensures old(history) <= history
    {
      hide Parsing, Valid, ValidBut, Concat, Answers, Classify, IsBlank, FeedAll;
      ServerApart();
      ClientKnown(fd);
      var status, cmd;
      ghost var argv;
      status, pos', cmd, argv := NextCommand(fd, data, pos);
      turn := Conclude(fd, status, cmd, argv, data[pos..pos']);
    }

    static lemma MoreRead(read: map<int, Bytes>, fd: int, data: Bytes, pos: nat, next: nat)
      requires fd in read && pos <= next <= |data|
      ensures read[fd := read[fd] + data[..pos]][fd := read[fd] + data[..pos] + data[pos..next]] ==
              read[fd := read[fd] + data[..next]]
      ensures read[fd] + data[..pos] + data[pos..next] == read[fd] + data[..next]
      ensures read[fd := read[fd] + data[..pos]] - {fd} == read - {fd}
      ensures read[fd := read[fd] + data[..next]] - {fd} == read - {fd}
    {
      assert read[fd] + data[..pos] + data[pos..next] == read[fd] + data[..next];
    }

    /** A stream that has failed has failed however it goes on. */
    static lemma StaysFailed(limit: nat, read: Bytes, data: Bytes, next: nat)
      requires next <= |data|
      ensures var p := FeedAll(limit, START, read + data[..next]).state;
              p.Failed? ==> FeedAll(limit, START, read + data).state == p
    {
      var f := FeedAll(limit, START, read + data[..next]);
      FeedConcat(limit, START, read + data[..next], data[next..]);
      assert read + data[..next] + data[next..] == read + data;
      if f.state.Failed? { FeedFailed(limit, f, data[next..]); }
    }

    /** Parses and answers a received chunk; `rejected` if it ends in a protocol error. */
    method ReadChunk(fd: int, data: Bytes) returns (rejected: bool)
      requires Valid() && fd in parsers
      modifies this, storage.Repr(), aof, parsers[fd]
      modifies kernel`sends, kernel`wire, kernel`failures, kernel`sendLog, kernel`interest
      ensures Valid() && fresh(storage.Repr() - old(storage.Repr()))
      ensures if rejected then parsers == old(parsers) - {fd}
              else Excused(fd, old(parsers), old(kernel.failures), old(kernel.sendLog))
      ensures rejected ==>
                Warned(fd, FeedAll(ParseLimit(), START, old(read)[fd] + data).state, old(kernel.sendLog))
      ensures fd in parsers ==> read == old(read)[fd := old(read)[fd] + data]
      ensures read - {fd} == old(read) - {fd}
      ensures fd !in parsers && !rejected ==> fd in kernel.wire && kernel.wire[fd] <= OwedTo(fd)
      ensures old(history) <= history
    {
      hide Valid, Concat, Answers, FeedAll;
      var pos := 0;
      ClientKnown(fd);
      assert read[fd] + data[..0] == read[fd];
      while pos < |data|
        invariant Valid() && parsers == old(parsers) && 0 <= pos <= |data|
        invariant read == old(read)[fd := old(read)[fd] + data[..pos]]
        invariant kernel.failures == old(kernel.failures) && old(kernel.sendLog) <= kernel.sendLog
        invariant fresh(storage.Repr() - old(storage.Repr())) && old(history) <= history
        decreases |data| - pos
      {
        var turn, next := ReadCommand(fd, data, pos);
        MoreRead(old(read), fd, data, pos, next);
        if turn == Gone || turn == Rejected {
          StaysFailed(ParseLimit(), old(read)[fd], data, next);
          return turn == Rejected;
        }
        pos := next;
        if turn == Wait {
          break;
        }
      }
      assert data[..|data|] == data;
      ClientKnown(fd);
      return false;
    }

    /** Every byte delivered by a client has been read. */
    ghost predicate AllRead()
      reads this`parsers, this`read, kernel`delivered
    {
      forall g :: g in parsers ==> g in read && g in kernel.delivered && read[g] == kernel.delivered[g]
    }

    ghost predicate ReadBut(fd: int)
      reads this`parsers, this`read, kernel`delivered
    {
      forall g :: g in parsers && g != fd ==> g in read && g in kernel.delivered && read[g] == kernel.delivered[g]
    }

    /** The client's bytes are in error, and it was told. */
    ghost predicate TurnedAway(fd: int, log: seq<SendResult>)
      reads this`exchanges, kernel`wire, kernel`sendLog, kernel`delivered
    {
      && fd in kernel.delivered
      && Warned(fd, FeedAll(ParseLimit(), START, kernel.delivered[fd]).state, log)
    }

    /**
     How reading from `fd` leaves it: closed if what it sent is no request (`rejected`), and else exactly if its
     connection failed or it fell too far behind; what it was sent is then a prefix of what it was owed.
     */
    ghost predicate Served(fd: int, rejected: bool, parsers0: map<int, Parser>, failures0: nat, log: seq<SendResult>)
      reads this`parsers, this`exchanges, kernel`failures, kernel`wire, kernel`sendLog, kernel`delivered
    {
      && (if rejected then parsers == parsers0 - {fd} else Excused(fd, parsers0, failures0, log))
      && (rejected ==> TurnedAway(fd, log))
      && (fd !in parsers && !rejected ==> fd in kernel.wire && kernel.wire[fd] <= OwedTo(fd))
    }

    /** `ReadChunk` on what has just been delivered. */
    method ReadDelivered(fd: int, bytes: Bytes) returns (rejected: bool)
      requires Valid() && ReadBut(fd) && fd in parsers && fd in read
      requires fd in kernel.delivered && kernel.delivered[fd] == read[fd] + bytes
      modifies this, storage.Repr(), aof, parsers[fd]
      modifies kernel`sends, kernel`wire, kernel`failures, kernel`sendLog, kernel`interest
      ensures Valid() && AllRead() && fresh(storage.Repr() - old(storage.Repr()))
      ensures Served(fd, rejected, old(parsers), old(kernel.failures), old(kernel.sendLog))
      ensures fd in parsers ==> fd in read && old(read[fd]) <= read[fd]
      ensures old(history) <= history
    {
      hide Valid, Concat, Answers, FeedAll;
      ServerApart();
      ghost var before := read;
      rejected := ReadChunk(fd, bytes);
      StillRead(fd, before);
    }

    /** A client still served is not behind, and one closed after a failure is rightly closed. */
    lemma RightlySo(fd: int, parsers0: map<int, Parser>, failures0: nat, log: seq<SendResult>)
      requires Valid() && log <= kernel.sendLog
      requires if fd in parsers then parsers == parsers0 && failures0 == kernel.failures
               else parsers == parsers0 - {fd} && failures0 < kernel.failures
      requires fd !in parsers ==> fd in kernel.wire && kernel.wire[fd] <= OwedTo(fd)
      ensures Served(fd, false, parsers0, failures0, log)
    {
      hide OwedTo;
      if fd in parsers { NoneBehind(fd); }
    }

    /** What an outcome of `recv` means for the loop. */
    ghost predicate OneTurn(fd: int, more: bool, r: RecvResult)
      reads this`parsers
    {
      if more then r.Received? || r.RecvInterrupted? else fd in parsers ==> r.RecvWouldBlock?
    }

    /** One call of `recv`. */
    method Receive(fd: int) returns (r: RecvResult)
      requires Valid() && AllRead() && fd in parsers
      modifies kernel`recvs, kernel`delivered, kernel`failures, kernel`recvLog
      ensures Valid() && (!r.Received? ==> AllRead()) && kernel.recvLog == old(kernel.recvLog) + [r]
      ensures r.Received? ==>
                && ReadBut(fd) && fd in read && fd in kernel.delivered
                && kernel.delivered[fd] == read[fd] + r.bytes
      ensures kernel.failures == old(kernel.failures) + if r.EndOfStream? || r.RecvBroken? then 1 else 0
      ensures r.Received? || r.RecvInterrupted? ==> |kernel.recvs| < |old(kernel.recvs)|
    {
      hide Valid;
      ServerApart();
      r := kernel.Recv(fd);
    }

    /** An outcome of `recv` that brings no bytes: the loop waits or tries again, or the client is closed. */
    method NothingReceived(fd: int, r: RecvResult) returns (more: bool)
      requires Valid() && AllRead() && fd in parsers && !r.Received?
      modifies this`parsers, this`outbox, this`watchFlags, kernel`interest
      ensures Valid() && AllRead() && more == r.RecvInterrupted?
      ensures parsers == if r.EndOfStream? || r.RecvBroken? then old(parsers) - {fd} else old(parsers)
      ensures fd !in parsers ==> fd in kernel.wire && kernel.wire[fd] <= OwedTo(fd)
    {
      hide Valid, Concat, Answers, AllRead;
      if r.EndOfStream? {
        HangUp(fd);
        return false;
      }
      if r.RecvWouldBlock? {
        return false;
      }
      if r.RecvInterrupted? {
        return true;
      }
      HangUp(fd);
      return false;
    }

    /** One turn of the receive loop: `more` unless the socket is empty or the client is gone. */
    method ReceiveTurn(fd: int) returns (more: bool, ghost rejected: bool, ghost r: RecvResult)
      requires Valid() && AllRead() && fd in parsers
      modifies this, kernel, storage.Repr(), aof, parsers[fd]
      ensures Valid() && AllRead() && fresh(storage.Repr() - old(storage.Repr()))
      ensures Served(fd, rejected, old(parsers), old(kernel.failures), old(kernel.sendLog))
      ensures fd in parsers ==> old(read[fd]) <= read[fd]
      ensures old(history) <= history && (more ==> fd in parsers && |kernel.recvs| < |old(kernel.recvs)|)
      ensures kernel.recvLog == old(kernel.recvLog) + [r] && OneTurn(fd, more, r)
    {
      hide Valid, Concat, Answers, Served, Excused, AllRead, ReadBut;
      ServerApart();
      var outcome := Receive(fd);
      rejected, r := false, outcome;
      if outcome.Received? {
        rejected := ReadDelivered(fd, outcome.bytes);
        more := fd in parsers;
      } else {
        more := NothingReceived(fd, outcome);
        RightlySo(fd, old(parsers), old(kernel.failures), old(kernel.sendLog));
      }
    }

    /**
     The readable event: reads, parses and answers until the socket has no more. The client stays unless its
     connection ends or fails, it falls too far behind, or what it sent is no request (`rejected`).
     */
    method HandleReadable(fd: int) returns (ghost rejected: bool)
      requires Valid() && AllRead() && fd in parsers
      modifies this, kernel, storage.Repr(), aof, parsers[fd]
      ensures Valid() && AllRead() && fresh(storage.Repr() - old(storage.Repr()))
      ensures Served(fd, rejected, old(parsers), old(kernel.failures), old(kernel.sendLog))
      ensures fd in parsers ==> old(read[fd]) <= read[fd]
      ensures old(history) <= history && Drained(fd, old(kernel.recvLog))
    {
      hide Valid, Concat, Answers, FeedAll;
      ClientKnown(fd);
      while true
        invariant old(kernel.recvLog) <= kernel.recvLog
        invariant forall i :: |old(kernel.recvLog)| <= i < |kernel.recvLog| ==>
                    kernel.recvLog[i].Received? || kernel.recvLog[i].RecvInterrupted?
        invariant Valid() && AllRead() && parsers == old(parsers) && old(read[fd]) <= read[fd]
        invariant fresh(storage.Repr() - old(storage.Repr())) && old(history) <= history
        invariant kernel.failures == old(kernel.failures) && old(kernel.sendLog) <= kernel.sendLog
        decreases |kernel.recvs|
      {
        var more;
        ghost var r;
        more, rejected, r := ReceiveTurn(fd);
        if !more {
          return;
        }
      }
    }

    /** Reading from one client leaves what has been read from the others. */
    lemma StillRead(fd: int, before: map<int, Bytes>)
      requires read - {fd} == before - {fd}
      requires fd in parsers ==> fd in read && fd in kernel.delivered && read[fd] == kernel.delivered[fd]
      requires forall g :: g in parsers && g != fd ==>
                 g in before && g in kernel.delivered && before[g] == kernel.delivered[g]
      ensures AllRead()
    {
      forall g | g in parsers && g != fd ensures g in read && read[g] == before[g] {
        assert g in before - {fd};
      }
    }

    static lemma GoodIsPrefix(queue: Option<seq<OutChunk>>, watch: Option<Interest>, wire: Option<Bytes>,
                             answers: seq<Bytes>)
      requires Good(queue, watch, wire, answers)
      ensures wire.Some? && wire.value <= Concat(answers)
    {
    }

    /** `close_client` on a client in order: what it was sent is a prefix of what it was owed. */
    method HangUp(fd: int)
      requires Valid() && fd in parsers
      modifies this`parsers, this`outbox, this`watchFlags, kernel`interest
      ensures Valid() && parsers == old(parsers) - {fd} && (old(AllRead()) ==> AllRead())
      ensures forall log :: old(Drained(fd, log)) ==> Drained(fd, log)
      ensures fd in kernel.wire && kernel.wire[fd] <= OwedTo(fd)
    {
      hide Parsing, Stored, Serial, Concat, Answers, ClientOk;
      NoneBehind(fd);
      CloseClient(fd);
      forall g | g in parsers ensures ParserOk(g) { assert old(ParserOk(g)); }
    }

    static lemma FreshParsing(p: Parser, limit: nat)
      requires p.Valid() && p.At() == FRESH && p.maxBulkLen == limit
      ensures Parsing(p, limit, [], ArgvsOf([]))
    {
      assert ArgvsOf([]) == [];
    }

    static lemma FreshGood(maxValue: nat, limits: Limits)
      ensures Good(None, Some(ReadOnly), Some([]), Answers(maxValue, limits, []))
    {
    }

    /** A new connection on a descriptor that names no client. */
    method Accept(fd: int)
      requires Valid() && fd !in parsers
      modifies this, kernel`wire, kernel`interest, kernel`delivered
      ensures Valid() && (old(AllRead()) ==> AllRead())
      ensures fd in parsers && fresh(parsers[fd]) && parsers == old(parsers)[fd := parsers[fd]]
      ensures parsers[fd].maxBulkLen ==
              1024 * 1024 + if maxValueSize < storage.limits.memory then maxValueSize else storage.limits.memory
      ensures read == old(read)[fd := []] && exchanges == old(exchanges)[fd := []] && history == old(history)
      ensures kernel.wire == old(kernel.wire)[fd := []] && kernel.delivered == old(kernel.delivered)[fd := []]
      ensures outbox == old(outbox)
    {
      hide Parsing, Valid, ValidBut;
      var parser := new Parser(ParseLimit());
      assert Valid();
      FreshParsing(parser, ParseLimit());
      Register(fd, parser);
      SetRead(fd, []);
      assert read[fd] == [];
    }

    /** The tables learn of a new client. */
    method Register(fd: int, parser: Parser)
      requires Valid() && fd !in parsers && parser !in storage.Repr()
      requires forall g :: g in parsers ==> parsers[g] != parser
      modifies this`parsers, this`watchFlags, this`exchanges, this`read, kernel`wire, kernel`interest, kernel`delivered
      ensures ValidBut(fd) && parsers == old(parsers)[fd := parser] && exchanges == old(exchanges)[fd := []]
      ensures read == old(read)[fd := []] && kernel.delivered == old(kernel.delivered)[fd := []]
      ensures kernel.wire == old(kernel.wire)[fd := []]
    {
      hide Parsing, ClientsOk, Stored, Serial;
      SerialAccept(maxValueSize, storage.limits, start, history, exchanges, fd, storage.Abs());
      RegisterClient(fd, parser);
      read := read[fd := []];
      forall g | g in parsers && g != fd ensures ParserOk(g) { assert old(ParserOk(g)); }
    }

    method RegisterClient(fd: int, parser: Parser)
      requires ClientsOk() && fd !in parsers
      modifies this`parsers, this`watchFlags, this`exchanges, kernel`wire, kernel`interest, kernel`delivered
      ensures ClientsOk() && parsers == old(parsers)[fd := parser] && exchanges == old(exchanges)[fd := []]
      ensures kernel.delivered == old(kernel.delivered)[fd := []] && kernel.wire == old(kernel.wire)[fd := []]
    {
      hide Concat, Answers, Good;
      FreshGood(maxValueSize, storage.limits);
      kernel.Accept(fd);
      parsers := parsers[fd := parser];
      watchFlags := watchFlags[fd := ReadOnly];
      exchanges := exchanges[fd := []];
      forall g | g in parsers ensures ClientOk(g) {
        if g != fd { assert old(ClientOk(g)); }
      }
      hide ClientOk;
    }

    /** One event of the loop, on a client the kernel watches. */
    method HandleEvent(fd: int, readable: bool, writable: bool, hungUp: bool) returns (ghost rejected: bool)
      requires Valid() && AllRead() && fd in parsers
      modifies this, kernel, storage.Repr(), aof, parsers[fd]
      ensures Valid() && AllRead() && fresh(storage.Repr() - old(storage.Repr()))
      ensures if rejected || hungUp then parsers == old(parsers) - {fd}
              else Excused(fd, old(parsers), old(kernel.failures), old(kernel.sendLog))
      ensures rejected ==> readable && TurnedAway(fd, old(kernel.sendLog))
      ensures !rejected ==> old(kernel.failures) <= kernel.failures && old(kernel.sendLog) <= kernel.sendLog
      ensures fd !in parsers && !rejected ==> fd in kernel.wire && kernel.wire[fd] <= OwedTo(fd)
      ensures old(history) <= history && (readable ==> Drained(fd, old(kernel.recvLog)))
      ensures writable && fd in parsers && fd in outbox ==> Blocked(old(kernel.sendLog))
    {
      hide Valid, Concat, Answers, FeedAll, AllRead, Behind, OwedTo, Drained;
      ServerApart();
      ClientKnown(fd);
      rejected := false;
      if hungUp && !readable {
        HangUp(fd);
        return;
      }
      if readable {
        rejected := HandleReadable(fd);
        if fd !in parsers {
          return;
        }
      }
      if writable {
        HandleWritable(fd);
      }
      if hungUp && fd in parsers {
        HangUp(fd);
      }
    }

    /** The parsers of the clients. */
    ghost function Parsers(): set<Parser>
      reads this`parsers
    {
      set fd | fd in parsers :: parsers[fd]
    }

    ghost function Now(): Glimpse
      reads this`parsers, this`outbox, this`exchanges
      reads kernel`wire, kernel`delivered, kernel`failures, kernel`sendLog, kernel`recvLog
    {
      Glimpse(parsers, outbox.Keys, exchanges, kernel.wire, kernel.delivered, kernel.failures, kernel.sendLog,
              kernel.recvLog)
    }

    ghost function AnswersIn(g: Glimpse, fd: int): seq<Bytes> {
      Answers(maxValueSize, storage.limits, if fd in g.exchanges then g.exchanges[fd] else [])
    }

    /** In `g`, the client has not been sent all its answers but the latest 1024. */
    ghost predicate Lagging(g: Glimpse, fd: int) { fd in g.wire && BehindBy(g.wire[fd], AnswersIn(g, fd), 1024) }

    /** The client was told of the error that its bytes are in, and closed. */
    ghost predicate Dismissed(a: Glimpse, fd: int, b: Glimpse) {
      && b.parsers == a.parsers - {fd} && fd in b.delivered && fd in b.wire
      && Warning(FeedAll(ParseLimit(), START, b.delivered[fd]).state, Concat(AnswersIn(b, fd)), b.wire[fd], b.sendLog,
                 a.sendLog)
    }

    /** The client is still there, unless its connection failed or ended, it hung up, or it lags behind. */
    ghost predicate StillServed(a: Glimpse, fd: int, hungUp: bool, b: Glimpse) {
      && a.failures <= b.failures && a.sendLog <= b.sendLog
      && b.parsers == if hungUp || a.failures < b.failures || Lagging(b, fd) then a.parsers - {fd} else a.parsers
    }

    /** What a turn of the loop makes of what happened. */
    ghost predicate Treated(h: Happening, a: Glimpse, b: Glimpse) {
      match h
      case Connects(fd) =>
        if fd in a.parsers then b == a
        else
          && fd in b.parsers && (forall g :: g in a.parsers ==> a.parsers[g] != b.parsers[fd])
          && b == a.(parsers := a.parsers[fd := b.parsers[fd]], exchanges := a.exchanges[fd := []],
                     wire := a.wire[fd := []], delivered := a.delivered[fd := []])
      case Polled(fd, readable, writable, hungUp) =>
        if fd !in a.parsers then b == a
        else
          && ((readable && Dismissed(a, fd, b)) || StillServed(a, fd, hungUp, b))
          && (readable ==>
                && a.recvLog < b.recvLog
                && (forall i :: |a.recvLog| <= i < |b.recvLog| - 1 ==>
                      b.recvLog[i].Received? || b.recvLog[i].RecvInterrupted?)
                && (fd in b.parsers ==> b.recvLog[|b.recvLog| - 1].RecvWouldBlock?))
          && (writable && fd in b.parsers && fd in b.waiting ==>
                a.sendLog < b.sendLog && b.sendLog[|b.sendLog| - 1].SendWouldBlock?)
    }

    /** One turn of the event loop: whatever the sweeper did meanwhile, and a connection or a client's event. */
    method LoopTurn(h: Happening)
      requires Valid() && AllRead()
      modifies this, kernel, storage.Repr(), aof, Parsers()
      ensures Valid() && AllRead() && fresh(storage.Repr() - old(storage.Repr())) && fresh(Parsers() - old(Parsers()))
      ensures old(history) <= history && Treated(h, old(Now()), Now())
    {
      hide Valid, ValidBut, AllRead, Answers, Dismissed, StillServed;
      ServerApart();
      Resting(h.fd);
      SweeperRuns(h.fd);
      match h
      case Connects(fd) =>
        if fd !in parsers {
          Accept(fd);
        }
      case Polled(fd, readable, writable, hungUp) =>
        if fd in parsers {
          Attend(fd, readable, writable, hungUp);
        }
    }

    /** `HandleEvent`, seen from outside. */
    method Attend(fd: int, readable: bool, writable: bool, hungUp: bool)
      requires Valid() && AllRead() && fd in parsers
      modifies this, kernel, storage.Repr(), aof, parsers[fd]
      ensures Valid() && AllRead() && fresh(storage.Repr() - old(storage.Repr()))
      ensures old(history) <= history && parsers.Keys <= old(parsers.Keys)
      ensures forall g :: g in parsers ==> parsers[g] == old(parsers)[g]
      ensures Treated(Polled(fd, readable, writable, hungUp), old(Now()), Now())
    {
      hide Valid, AllRead, Behind, OwedTo, TurnedAway, Drained, Blocked, Treated;
      ServerApart();
      ghost var a := Now();
      ghost var rejected := HandleEvent(fd, readable, writable, hungUp);
      Attended(a, fd, readable, writable, hungUp, rejected);
    }

    lemma Attended(a: Glimpse, fd: int, readable: bool, writable: bool, hungUp: bool, rejected: bool)
      requires fd in a.parsers
      requires if rejected || hungUp then parsers == a.parsers - {fd} else Excused(fd, a.parsers, a.failures, a.sendLog)
      requires rejected ==> readable && TurnedAway(fd, a.sendLog)
      requires !rejected ==> a.failures <= kernel.failures && a.sendLog <= kernel.sendLog
      requires readable ==> Drained(fd, a.recvLog)
      requires writable && fd in parsers && fd in outbox ==> Blocked(a.sendLog)
      ensures Treated(Polled(fd, readable, writable, hungUp), a, Now())
    {
      hide Answers, Concat, BehindBy, Warning, FeedAll;
      assert rejected ==> Dismissed(a, fd, Now());
      assert !rejected ==> StillServed(a, fd, hungUp, Now());
    }

    lemma Resting(fd: int)
      requires Valid()
      ensures ValidBut(fd)
    {
    }

    /** The event loop: everything that the kernel reports is treated, in order; `seen` is the server in between. */
    method EventLoop(happenings: seq<Happening>) returns (ghost seen: seq<Glimpse>)
      requires Valid() && AllRead()
      modifies this, kernel, storage.Repr(), aof, Parsers()
      ensures Valid() && AllRead() && fresh(storage.Repr() - old(storage.Repr())) && fresh(Parsers() - old(Parsers()))
      ensures old(history) <= history
      ensures |seen| == |happenings| + 1 && seen[0] == old(Now()) && seen[|happenings|] == Now()
      ensures forall i :: 0 <= i < |happenings| ==> Treated(happenings[i], seen[i], seen[i + 1])
    {
      hide Valid, AllRead, Treated, Now;
      seen := [Now()];
      for i := 0 to |happenings|
        invariant Valid() && AllRead() && old(history) <= history
        invariant fresh(storage.Repr() - old(storage.Repr())) && fresh(Parsers() - old(Parsers()))
        invariant |seen| == i + 1 && seen[0] == old(Now()) && seen[i] == Now()
        invariant forall j :: 0 <= j < i ==> Treated(happenings[j], seen[j], seen[j + 1])
      {
        LoopTurn(happenings[i]);
        seen := seen + [Now()];
      }
    }

    /** The log and the cache, as the history tells them. */
    lemma AsRecorded()
      requires Valid() && aof != null
      ensures begun <= aof.lines && aof.lines == begun + Logged(maxValueSize, storage.limits, history)
      ensures Leads(maxValueSize, storage.limits, start, history, storage.Abs())
      ensures Accounted(Known(), storage.Abs())
    {
    }

    /** The writable event. */
    method HandleWritable(fd: int)
      requires Valid() && fd in parsers
      modifies this`parsers, this`outbox, this`watchFlags
      modifies kernel`sends, kernel`wire, kernel`failures, kernel`sendLog, kernel`interest
      ensures Valid() && fd in kernel.wire && kernel.wire[fd] <= OwedTo(fd)
      ensures parsers == if kernel.failures > old(kernel.failures) then old(parsers) - {fd} else old(parsers)
      ensures old(kernel.failures) <= kernel.failures && old(kernel.sendLog) <= kernel.sendLog
      ensures old(AllRead()) ==> AllRead()
      ensures forall log :: old(Drained(fd, log)) ==> Drained(fd, log)
      ensures !Behind(fd) && (fd in parsers && fd in outbox ==> Blocked(old(kernel.sendLog)))
    {
      hide Parsing, Stored, Serial, Concat, Answers, Exact, ClientsOk, OthersOk, ClientOk, BehindBy;
      ReadyToSend(fd);
      TrySend(fd);
      forall g | g in parsers ensures ParserOk(g) { assert old(ParserOk(g)); }
    }

    lemma ReadyToSend(fd: int)
      requires ClientsOk() && fd in parsers
      ensures OthersOk(fd) && fd in kernel.wire
      ensures if fd in outbox then Exact(kernel.wire[fd], outbox[fd], AnswersTo(fd)) && |outbox[fd]| <= MAX_QUEUED
              else ClientOk(fd)
    {
      hide Good, Exact;
      assert ClientOk(fd);
      GoodIsExact(Lookup(outbox, fd), Lookup(watchFlags, fd), Lookup(kernel.wire, fd), AnswersTo(fd));
      GoodIsBounded(Lookup(outbox, fd), Lookup(watchFlags, fd), Lookup(kernel.wire, fd), AnswersTo(fd));
    }

    static lemma GoodIsBounded(queue: Option<seq<OutChunk>>, watch: Option<Interest>, wire: Option<Bytes>,
                             answers: seq<Bytes>)
      requires Good(queue, watch, wire, answers)
      ensures queue.Some? ==> 0 < |queue.value| <= MAX_QUEUED && ValidQueue(queue.value) && Unsent(queue.value[0]) != []
    {
    }

    // -------------------------------------------------------------- what a client may send

    /** At most 1024 arguments, none longer than 1 MiB above the smaller of the two limits. */
    predicate Admitted(args: seq<Bytes>) {
      && |args| <= 1024
      && forall i :: 0 <= i < |args| ==>
           && |args[i]| <= maxValueSize + 1024 * 1024 && |args[i]| <= storage.limits.memory + 1024 * 1024
           && |args[i]| < 1_000_000_000_000_000_000
    }

    lemma AdmittedMeans(args: seq<Bytes>)
      ensures Admitted(args) <==> Encodable(ParseLimit(), args)
    {
      EncodableMeans(ParseLimit(), args);
    }

    /** A command that is admitted is read in full, and one that is not is a protocol error, whatever comes after. */
    lemma AdmittedOrRefused(before: seq<seq<Bytes>>, args: seq<Bytes>, rest: Bytes)
      ensures var f := FeedAll(ParseLimit(), Feed(FRESH, before), Encode(args) + rest);
              if Admitted(args) then f == FeedAll(ParseLimit(), Feed(FRESH, before + [args]), rest)
              else f.state.Failed? && f.argvs == before
    {
      hide Admitted, ParseLimit, Encode, Encodable, FeedAll;
      AdmittedMeans(args);
      DeliveredOrRefused(ParseLimit(), before, args, rest);
    }

    /** A client that sends admitted commands is never in error, wherever its stream is cut, and all of them arrive. */
    lemma AdmittedAllArrive(argvs: seq<seq<Bytes>>, read: Bytes, rest: Bytes)
      requires (forall i :: 0 <= i < |argvs| ==> Admitted(argvs[i])) && read + rest == EncodeAll(argvs)
      ensures !FeedAll(ParseLimit(), START, read).state.Failed?
      ensures rest == [] ==> FeedAll(ParseLimit(), START, read) == Feed(FRESH, argvs)
    {
      hide Admitted, ParseLimit, Encode, Encodable, FeedAll;
      var limit := ParseLimit();
      forall i | 0 <= i < |argvs| ensures Encodable(limit, argvs[i]) { AdmittedMeans(argvs[i]); }
      RoundTrip(limit, [], argvs);
      assert [] + argvs == argvs && (rest == [] ==> read + rest == read);
      FeedConcat(limit, START, read, rest);
      var f := FeedAll(limit, START, read);
      if f.state.Failed? { FeedFailed(limit, f, rest); }
    }

    // -------------------------------------------------------------- what a client sees

    /**
     In any state between events, what a client has been sent and is about to be sent is read back as exactly one
     reply for each command among the bytes it sent, blank ones aside, if the texts echoed are safe: the reply to that
     command, and in the commands' order.
     */
    lemma OneReplyPerCommand(fd: int)
      requires Valid() && fd in parsers
      requires forall argv :: argv in Answered(FeedAll(ParseLimit(), START, read[fd]).argvs) ==>
                 SafeEcho(maxValueSize, Classify(argv))
      ensures fd in kernel.wire && (fd in outbox ==> ValidQueue(outbox[fd]))
      ensures fd in exchanges && ArgvsOf(exchanges[fd]) == Answered(FeedAll(ParseLimit(), START, read[fd]).argvs)
      ensures var stream := kernel.wire[fd] + if fd in outbox then Pending(outbox[fd]) else [];
              ReadAll(stream) == Some(RepliesOf(Answers(maxValueSize, storage.limits, exchanges[fd])))
    {
      hide Concat, Answered, SafeEcho, IsOneReply, Stored, AnswerOf, IsBlank, Classify;
      assert ClientOk(fd) && ParserOk(fd);
      var es := exchanges[fd];
      var answers := Answers(maxValueSize, storage.limits, es);
      forall i | 0 <= i < |es| ensures IsOneReply(answers[i]) {
        assert ArgvsOf(es)[i] == es[i].argv;
        AnsweredNotBlank(FeedAll(ParseLimit(), START, read[fd]).argvs, i);
        AnswerIsOneReply(es[i]);
      }
      StreamReads(answers);
    }

    lemma AnswerIsOneReply(e: Exchange)
      requires !IsBlank(Classify(e.argv)) && SafeEcho(maxValueSize, Classify(e.argv))
      ensures IsOneReply(AnswerOf(maxValueSize, storage.limits, e))
    {
      OneReply(maxValueSize, storage.limits, e.before, Classify(e.argv), e.found);
    }
  }

  /**
   The program's start: an empty storage, the log replayed into it, and a server over both. `steps` is what happened
   in the replay. From then on the server's log stands for the values that the replay kept.
   */
  method Startup(limits: Limits, buckets: nat, log: AOFLogger?, kernel: Kernel, spare: nat -> nat, now: nat)
    returns (server: Server, ghost steps: seq<Step>, ghost last: Stage)
    requires kernel.interest == map[]
    ensures fresh(server) && fresh(server.storage.Repr())
    ensures server.Valid() && server.parsers == map[] && server.history == []
    ensures server.aof == log && server.kernel == kernel
    ensures server.storage.limits == limits && server.maxValueSize == limits.maxValue
    ensures server.start == server.storage.Abs() == last.cache
    ensures server.begun == if log == null then [] else log.lines
    ensures if log == null then last == Beginning(buckets, now)
            else RunSteps(Replayer(limits, spare, log.lines), Beginning(buckets, now), steps) == Some(last) &&
                 last.done == |log.lines| && server.base == Kept(limits, spare, log.lines)
  {
    hide RunSteps, Kept, Storage.Valid;
    var storage := new Storage(limits.memory, limits.maxValue, buckets);
    steps, last := [], Beginning(buckets, now);
    ghost var base := map[];
    if log != null {
      steps, last := Replay(log, storage, spare, now);
      base := Kept(limits, spare, log.lines);
    }
    server := new Server(storage, log, kernel, limits.maxValue, base);
  }

  /** No key has another value in one than in the other; and they have the same values if nothing was lost in either. */
  ghost predicate Agreeing(live: Cache, back: Cache) {
    && (forall k :: k in live.data && k in back.data ==> live.data[k].value == back.data[k].value)
    && (Undisturbed(live) && Undisturbed(back) ==> ValuesOf(live.data) == ValuesOf(back.data))
  }

  lemma AccountedAgree(logged: map<Bytes, Bytes>, live: Cache, back: Cache)
    requires Accounted(logged, live) && Accounted(logged, back)
    ensures Agreeing(live, back)
  {
  }

  /**
   A restart: a server's log, as it stands at any point of its run, is replayed into a fresh storage, which then holds
   what the log keeps. It agrees with the server if it keeps of the log's beginning what the server began with, and
   refuses no record written since.
   */
  method Restart(server: Server, limits: Limits, buckets: nat, spare: nat -> nat, now: nat)
    returns (storage: Storage, ghost steps: seq<Step>, ghost last: Stage)
    requires server.Valid() && server.aof != null
    ensures fresh(storage.Repr()) && storage.Valid() && storage.limits == limits
    ensures RunSteps(Replayer(limits, spare, server.aof.lines), Beginning(buckets, now), steps) == Some(last)
    ensures last.done == |server.aof.lines| && last.cache == storage.Abs()
    ensures Accounted(Kept(limits, spare, server.aof.lines), storage.Abs())
    ensures Kept(limits, spare, server.begun) == server.base &&
            NoneRefused(Replayer(limits, spare, server.aof.lines), |server.begun|) ==>
              Agreeing(server.storage.Abs(), storage.Abs())
  {
    hide RunSteps, Kept, Storage.Valid, Onward, NoneRefused, Server.Valid, Logged, Leads, Accounted, Agreeing;
    storage := new Storage(limits.memory, limits.maxValue, buckets);
    steps, last := Replay(server.aof, storage, spare, now);
    hide Storage.Abs;
    server.AsRecorded();
    ghost var env, from := Replayer(limits, spare, server.aof.lines), |server.begun|;
    if Kept(limits, spare, server.begun) == server.base && NoneRefused(env, from) {
      KeptOnward(env, from, |env.lines|);
      assert env.lines[..from] == server.begun && env.lines[..|env.lines|] == env.lines;
      assert env.lines[from..|env.lines|] == env.lines[from..];
      AccountedAgree(Kept(limits, spare, env.lines), server.storage.Abs(), storage.Abs());
    }
  }

  /** A replay with room enough refuses nothing that a server has logged. */
  lemma NoneSinceRefused(server: Server, limits: Limits, spare: nat -> nat)
    requires server.Valid() && server.aof != null
    requires forall i :: |server.begun| <= i < |server.aof.lines| ==> Roomier(limits, server.storage.limits, spare(i))
    ensures NoneRefused(Replayer(limits, spare, server.aof.lines), |server.begun|)
  {
    hide Refused, Roomier, Leads, Logged, Server.Valid, Storage.Abs;
    server.AsRecorded();
    var from, lines := |server.begun|, server.aof.lines;
    forall i | from <= i < |lines| ensures !Refused(limits, spare(i), lines[i]) {
      assert lines[i] == Logged(server.maxValueSize, server.storage.limits, server.history)[i - from];
      LoggedAccepted(server.maxValueSize, server.storage.limits, server.start, server.history, server.storage.Abs(),
                     limits, spare(i), lines[i]);
    }
  }

  /**
   The program's whole life, and the next one's start: the log is replayed, the event loop runs, and the log as it
   then is is replayed again. What the second replay restores agrees with what the server held at its end, if it
   refuses the same of the original log as the first, and its limits leave room for its larger strings.
   */
  method Lifetime(log: AOFLogger, kernel: Kernel, happenings: seq<Happening>,
                  first: Limits, buckets: nat, spare: nat -> nat, now: nat,
                  second: Limits, buckets': nat, spare': nat -> nat, now': nat)
    returns (server: Server, ghost seen: seq<Glimpse>, storage: Storage)
    requires kernel.interest == map[]
    modifies log, kernel
    ensures server.Valid() && server.AllRead() && server.aof == log && server.storage.limits == first
    ensures |seen| == |happenings| + 1 && seen[0].parsers == map[] && seen[|happenings|] == server.Now()
    ensures forall i :: 0 <= i < |happenings| ==> server.Treated(happenings[i], seen[i], seen[i + 1])
    ensures log.lines == old(log.lines) + Logged(first.maxValue, first, server.history)
    ensures storage.Valid() && Accounted(Kept(second, spare', log.lines), storage.Abs())
    ensures (forall i: nat :: Roomier(second, first, spare'(i))) &&
            RefusedAlike(Replayer(second, spare', old(log.lines)), Replayer(first, spare, old(log.lines)),
                         |old(log.lines)|) ==>
              Agreeing(server.storage.Abs(), storage.Abs())
  {
    hide Server.Valid, Server.Treated, Storage.Valid, Storage.Abs, RunSteps, Kept, RefusedAlike, NoneRefused, Roomier,
      Logged, Leads, Accounted, Agreeing;
    ghost var steps, last;
    server, steps, last := Startup(first, buckets, log, kernel, spare, now);
    seen := server.EventLoop(happenings);
    server.AsRecorded();
    storage, steps, last := Restart(server, second, buckets', spare', now');
    ghost var a, b := Replayer(second, spare', server.begun), Replayer(first, spare, server.begun);
    if (forall i: nat :: Roomier(second, first, spare'(i))) && RefusedAlike(a, b, |server.begun|) {
      NoneSinceRefused(server, second, spare');
      assert server.begun[..|server.begun|] == server.begun;
      SameKept(a, b, |server.begun|);
    }
  }
}
