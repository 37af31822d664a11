/** The incremental RESP2 parser: buffers in, one command at a time out. */
module Protocol {
  import opened ByteStrings
  import opened Decimal
  import opened RespMachine
  import opened RespStream

  datatype CommandType = SET | GET | DEL | METRICS | PING | SELECT | UNKNOWN

  datatype Command = Command(kind: CommandType, verb: Bytes, args: seq<Bytes>)

  function CommandTypeOf(verb: Bytes): CommandType {
    var upper := Upper(verb);
    if upper == "SET" then SET
    else if upper == "GET" then GET
    else if upper == "DEL" then DEL
    else if upper == "METRICS" then METRICS
    else if upper == "PING" then PING
    else if upper == "SELECT" then SELECT
    else UNKNOWN
  }

  function Classify(argv: seq<Bytes>): Command {
    if argv == [] then Command(UNKNOWN, [], []) else Command(CommandTypeOf(argv[0]), argv[0], argv[1..])
  }

  /** A command the server skips without a reply. */
  predicate IsBlank(cmd: Command) { cmd.kind == UNKNOWN && cmd.verb == [] }

  /** An empty array and an array with an empty verb are both skipped, and nothing else is. */
  lemma BlankCommands(argv: seq<Bytes>)
    ensures IsBlank(Classify(argv)) <==> argv == [] || argv[0] == []
  {
    if argv != [] && argv[0] == [] { assert |Upper(argv[0])| == 0; }
  }

  /** What a request asks for, letter by letter of its verb, and with what arguments. */
  lemma VerbMeans(argv: seq<Bytes>)
    requires argv != []
    ensures var cmd, verb := Classify(argv), argv[0];
            && (cmd.kind == SET <==> Spells(verb, "SET")) && (cmd.kind == GET <==> Spells(verb, "GET"))
            && (cmd.kind == DEL <==> Spells(verb, "DEL")) && (cmd.kind == METRICS <==> Spells(verb, "METRICS"))
            && (cmd.kind == PING <==> Spells(verb, "PING")) && (cmd.kind == SELECT <==> Spells(verb, "SELECT"))
            && cmd.verb == verb && cmd.args == argv[1..]
  {
    hide Upper, Spells;
    var verb := argv[0];
    UpperSpells(verb, "SET");
    UpperSpells(verb, "GET");
    UpperSpells(verb, "DEL");
    UpperSpells(verb, "METRICS");
    UpperSpells(verb, "PING");
    UpperSpells(verb, "SELECT");
    NamesDiffer();
  }

  lemma NamesDiffer()
    ensures "SET" != "GET" && "SET" != "DEL" && "GET" != "DEL" && "PING" != "SET" && |"METRICS"| == 7 && |"SELECT"| == 6
  {
    assert "SET"[0] == 'S' && "GET"[0] == 'G' && "DEL"[0] == 'D';
  }

  datatype Status = NeedMore | Ready | Error

  datatype LineStatus = LineMore | LineOk | LineBad

  /** Running from `p` over `s` is running from `q` over what follows the first `k` bytes. */
  ghost predicate Continues(limit: nat, p: Progress, s: Bytes, q: Progress, k: nat) {
    && k <= |s|
    && var r := Run(limit, q, s[k..]);
       Run(limit, p, s) == Stop(r.state, k + r.used)
  }

  lemma ContinuesAfter(limit: nat, p: Progress, s: Bytes, q: Progress, k: nat)
    requires k <= |s| && Run(limit, p, s[..k]) == Stop(q, k)
    ensures Continues(limit, p, s, q, k)
  {
    assert s == s[..k] + s[k..];
    RunConcat(limit, p, s[..k], s[k..]);
  }

  lemma ContinuesStop(limit: nat, p: Progress, s: Bytes, q: Progress, k: nat)
    requires Continues(limit, p, s, q, k) && (Stopped(q) || k == |s|)
    ensures Run(limit, p, s) == Stop(q, k)
  {
  }

  lemma ContinuesTrans(limit: nat, data: Bytes, p: Progress, pos: nat, q: Progress, mid: nat, q': Progress, end: nat)
    requires pos <= mid <= end <= |data|
    requires Continues(limit, p, data[pos..], q, mid - pos) && Continues(limit, q, data[mid..], q', end - mid)
    ensures Continues(limit, p, data[pos..], q', end - pos)
  {
    hide Run;
    assert data[pos..][mid - pos..] == data[mid..];
    assert data[mid..][end - mid..] == data[end..] == data[pos..][end - pos..];
  }

  /** How reading a header line from `s` in state `p` leaves the machine; `header` is the line so far. */
  ghost predicate LineRead(limit: nat, p: Progress, s: Bytes, header: Bytes, used: nat, status: LineStatus)
    requires p.ArrayLen? || p.BulkLen?
  {
    match status
    case LineMore => |header| <= MAX_HEADER && used == |s| && Continues(limit, p, s, p.(header := header), used)
    case LineOk => |header| <= MAX_HEADER && 0 < used && Continues(limit, p, s, AfterHeader(limit, p, header), used)
    case LineBad =>
      && 0 < used
      && Continues(limit, p, s, Failed(if p.ArrayLen? then "invalid array header" else "invalid bulk header"), used)
  }

  lemma ReadLineStep(limit: nat, p: Progress, s: Bytes, header: Bytes, k: nat)
    requires p.ArrayLen? || p.BulkLen?
    requires k < |s| && |header| <= MAX_HEADER && Run(limit, p, s[..k]) == Stop(p.(header := header), k)
    ensures Run(limit, p, s[..k + 1]) == Stop(Step(limit, p.(header := header), s[k]), k + 1)
    ensures Continues(limit, p, s, Step(limit, p.(header := header), s[k]), k + 1)
  {
    assert s[..k + 1] == s[..k] + [s[k]];
    RunSnoc(limit, p, s[..k], s[k]);
    ContinuesAfter(limit, p, s, Step(limit, p.(header := header), s[k]), k + 1);
  }

  /** Reads one CRLF- or LF-terminated line into `header`, at most 32 bytes of it. */
  method ReadLine(data: Bytes, pos: nat, header: Bytes, ghost limit: nat, ghost p: Progress)
    returns (status: LineStatus, pos': nat, header': Bytes)
    requires pos <= |data| && |header| <= MAX_HEADER
    requires (p.ArrayLen? || p.BulkLen?) && p.header == header
    ensures pos <= pos' <= |data| && LineRead(limit, p, data[pos..], header', pos' - pos, status)
  {
    pos', header' := pos, header;
    ghost var s := data[pos..];
    assert s[..0] == [];
    while pos' < |data|
      invariant pos <= pos' <= |data| && |header'| <= MAX_HEADER
      invariant Run(limit, p, s[..pos' - pos]) == Stop(p.(header := header'), pos' - pos)
    {
      var c := data[pos'];
      ReadLineStep(limit, p, s, header', pos' - pos);
      pos' := pos' + 1;
      if c == '\n' {
        if header' != [] && header'[|header'| - 1] == '\r' {
          header' := header'[..|header'| - 1];
        }
        return LineOk, pos', header';
      }
      header' := header' + [c];
      if |header'| > MAX_HEADER {
        return LineBad, pos', header';
      }
    }
    ContinuesAfter(limit, p, s, p.(header := header'), pos' - pos);
    return LineMore, pos', header';
  }

  /** The value of a string of 1 to 18 digits; it fits a `long`. */
  method ParseUint(text: Bytes) returns (ok: bool, value: nat)
    ensures ok <==> IsNumeral(text)
    ensures ok ==> value == Value(text) && value < Pow10(MAX_DIGITS)
  {
    if text == [] || |text| > MAX_DIGITS {
      return false, 0;
    }
    var v := 0;
    assert text[..0] == [];
    for i := 0 to |text|
      invariant AllDigits(text[..i]) && v == Value(text[..i])
    {
      var c := text[i];
      if c < '0' || c > '9' {
        return false, 0;
      }
      assert text[..i + 1][..i] == text[..i] && text[..i + 1][i] == c;
      v := v * 10 + DigitValue(c);
    }
    assert text[..|text|] == text;
    ValueBound(text);
    Pow10Monotone(|text|, MAX_DIGITS);
    return true, v;
  }

  datatype State = AtArrayLen | AtBulkLen | AtPayload | AtTrailer | AtTrailerLf | AtReady | AtFailed

  class Parser {
    const maxBulkLen: nat
    var state: State
    var header: Bytes
    var error: string
    var argc: nat
    var argIndex: nat
    var bulkLen: nat
    var bulkRead: nat
    var args: seq<Bytes>

    /** The fields agree with each other; the last argument is allocated before its payload arrives. */
    ghost predicate Valid()
      reads this
    {
      && (state == AtFailed || |header| <= MAX_HEADER)
      && match state
         case AtArrayLen => true
         case AtBulkLen => argIndex == |args| < argc <= MAX_ARGS
         case AtPayload =>
           && argIndex + 1 == |args| <= argc <= MAX_ARGS && header == []
           && bulkRead < bulkLen == |args[argIndex]|
         case AtTrailer => argIndex + 1 == |args| <= argc <= MAX_ARGS && header == []
         case AtTrailerLf => argIndex + 1 == |args| <= argc <= MAX_ARGS && header == []
         case AtReady => header == []
         case AtFailed => true
    }

    /** The byte-level progress these fields stand for. */
    ghost function At(): Progress
      requires Valid()
      reads this
    {
      match state
      case AtArrayLen => ArrayLen(header)
      case AtBulkLen => BulkLen(argc, args, header)
      case AtPayload => Payload(argc, args[..argIndex], bulkLen, args[argIndex][..bulkRead])
      case AtTrailer => Trailer(argc, args)
      case AtTrailerLf => TrailerLf(argc, args)
      case AtReady => Done(args)
      case AtFailed => Failed(error)
    }

    constructor (maxBulkLen: nat)
      ensures Valid() && At() == FRESH && this.maxBulkLen == maxBulkLen
    {
      this.maxBulkLen := maxBulkLen;
      state, header, error, args := AtArrayLen, [], "", [];
      argc, argIndex, bulkLen, bulkRead := 0, 0, 0, 0;
    }

    method Fail(message: string) returns (status: Status)
      modifies this`state, this`error
      ensures Valid() && At() == Failed(message) && status == Error
    {
      state, error := AtFailed, message;
      status := Error;
    }

    /** The number in the header line just read, if it has the tag and the digits it should. */
    method HeaderValue(tag: Byte) returns (number: Option<nat>)
      ensures number == HeaderNumber(header, tag)
    {
      if header == [] || header[0] != tag {
        return None;
      }
      var ok, value := ParseUint(header[1..]);
      return if ok then Some(value) else None;
    }

    /** The array header: either the call ends here (`stop`), or the count is known and reading goes on. */
    method ConsumeArrayLen(data: Bytes, pos: nat) returns (stop: Option<Status>, pos': nat)
      requires Valid() && state == AtArrayLen && pos <= |data|
      modifies this
      ensures Valid() && Consumed(maxBulkLen, old(At()), At(), data, pos, pos', stop)
    {
      hide Continues, Run, Value, AllDigits;
      ghost var p := At();
      var ls: LineStatus;
      ls, pos', header := ReadLine(data, pos, header, maxBulkLen, p);
      if ls == LineMore {
        return Some(NeedMore), pos';
      }
      if ls == LineBad {
        var status := Fail("invalid array header");
        return Some(status), pos';
      }
      var number := HeaderValue('*');
      header := [];
      if number.None? {
        var status := Fail("invalid array length");
        return Some(status), pos';
      }
      var count := number.value;
      if count > MAX_ARGS {
        var status := Fail("too many arguments");
        return Some(status), pos';
      }
      argc, argIndex, args := count, 0, [];
      state := if count == 0 then AtReady else AtBulkLen;
      return None, pos';
    }

    /** A bulk header: the argument is allocated at its full length, to be filled as bytes come. */
    method ConsumeBulkLen(data: Bytes, pos: nat) returns (stop: Option<Status>, pos': nat)
      requires Valid() && state == AtBulkLen && pos <= |data|
      modifies this
      ensures Valid() && Consumed(maxBulkLen, old(At()), At(), data, pos, pos', stop)
    {
      hide Continues, Run, Value, AllDigits;
      ghost var p := At();
      var ls: LineStatus;
      ls, pos', header := ReadLine(data, pos, header, maxBulkLen, p);
      if ls == LineMore {
        return Some(NeedMore), pos';
      }
      if ls == LineBad {
        var status := Fail("invalid bulk header");
        return Some(status), pos';
      }
      var number := HeaderValue('$');
      header := [];
      if number.None? {
        var status := Fail("invalid bulk length");
        return Some(status), pos';
      }
      var declared := number.value;
      if declared > maxBulkLen {
        var status := Fail("bulk length exceeds max-value-size");
        return Some(status), pos';
      }
      OpenArgument(declared);
      return None, pos';
    }

    /** Allocates the next argument at its full length. */
    method OpenArgument(length: nat)
      requires Valid() && state == AtBulkLen && header == []
      modifies this`args, this`bulkLen, this`bulkRead, this`state
      ensures Valid()
      ensures At() == if length == 0 then Trailer(argc, old(args) + [[]]) else Payload(argc, old(args), length, [])
    {
      args := args + [seq(length, _ => '\0')];
      bulkLen, bulkRead := length, 0;
      state := if length == 0 then AtTrailer else AtPayload;
      assert args[..argIndex] == old(args);
      assert length == 0 ==> args[argIndex] == [];
    }

    /** The payload: as much of it as the buffer holds is copied into place at once. */
    method ConsumePayload(data: Bytes, pos: nat) returns (stop: Option<Status>, pos': nat)
      requires Valid() && state == AtPayload && pos <= |data|
      modifies this
      ensures Valid() && Consumed(maxBulkLen, old(At()), At(), data, pos, pos', stop)
    {
      ghost var p, s := At(), data[pos..];
      var need := bulkLen - bulkRead;
      var take := if need < |data| - pos then need else |data| - pos;
      var last := args[argIndex];
      var block := data[pos..pos + take];
      var filled := last[..bulkRead] + block + last[bulkRead + take..];
      args, bulkRead, pos' := args[argIndex := filled], bulkRead + take, pos + take;
      assert filled[..bulkRead] == p.got + block;
      assert args[..argIndex] == p.args;
      assert s[..take] == block;
      RunPayload(maxBulkLen, p, block);
      if bulkRead < bulkLen {
        ContinuesAfter(maxBulkLen, p, s, At(), take);
        return Some(NeedMore), pos';
      }
      state := AtTrailer;
      assert filled == filled[..bulkRead];
      assert args == args[..argIndex] + [filled];
      ContinuesAfter(maxBulkLen, p, s, At(), take);
      return None, pos';
    }

    /** The line end after a payload: LF, or CR and then LF. */
    method ConsumeTrailer(data: Bytes, pos: nat) returns (stop: Option<Status>, pos': nat)
      requires Valid() && (state == AtTrailer || state == AtTrailerLf) && pos <= |data|
      modifies this
      ensures Valid() && Consumed(maxBulkLen, old(At()), At(), data, pos, pos', stop)
    {
      if pos == |data| {
        return Some(NeedMore), pos;
      }
      ghost var p, s := At(), data[pos..];
      var c := data[pos];
      pos' := pos + 1;
      RunOne(maxBulkLen, p, s);
      if state == AtTrailer && c == '\r' {
        state := AtTrailerLf;
      } else if c == '\n' {
        argIndex := argIndex + 1;
        state := if argIndex < argc then AtBulkLen else AtReady;
      } else {
        var status := Fail(if state == AtTrailer then "expected CRLF after bulk payload" else "expected LF after CR");
        return Some(status), pos';
      }
      return None, pos';
    }

    /** One turn of the loop: the branch of the current state. */
    method ConsumeState(data: Bytes, pos: nat) returns (stop: Option<Status>, pos': nat)
      requires Valid() && state != AtReady && state != AtFailed && pos <= |data|
      modifies this
      ensures Valid() && Consumed(maxBulkLen, old(At()), At(), data, pos, pos', stop)
    {
      match state
      case AtArrayLen => stop, pos' := ConsumeArrayLen(data, pos);
      case AtBulkLen => stop, pos' := ConsumeBulkLen(data, pos);
      case AtPayload => stop, pos' := ConsumePayload(data, pos);
      case AtTrailer => stop, pos' := ConsumeTrailer(data, pos);
      case AtTrailerLf => stop, pos' := ConsumeTrailer(data, pos);
    }

    /** The loop of `Consume`: turns until a command is ready, an error is found or the bytes run out. */
    method ConsumeLoop(data: Bytes, pos: nat) returns (pos': nat)
      requires Valid() && pos <= |data|
      modifies this
      ensures Valid() && pos <= pos' <= |data|
      ensures Run(maxBulkLen, old(At()), data[pos..]) == Stop(At(), pos' - pos)
    {
      hide Run;
      ghost var p0 := At();
      pos' := pos;
      while state != AtReady && state != AtFailed
        invariant Valid() && pos <= pos' <= |data|
        invariant Continues(maxBulkLen, p0, data[pos..], At(), pos' - pos)
        decreases |data| - pos'
      {
        ghost var p, before := At(), pos';
        var stop: Option<Status>;
        stop, pos' := ConsumeState(data, pos');
        ContinuesTrans(maxBulkLen, data, p0, pos, p, before, At(), pos');
        if stop.Some? {
          break;
        }
      }
      ContinuesStop(maxBulkLen, p0, data[pos..], At(), pos' - pos);
    }

    /**
     Reads `data` from `pos` until a command is complete, an error is found or the bytes run out.
     However the bytes arrive, this is the byte-at-a-time machine.
     */
    method Consume(data: Bytes, pos: nat) returns (status: Status, pos': nat, out: Command, ghost argv: seq<Bytes>)
      requires Valid() && pos <= |data|
      modifies this
      ensures Valid() && state != AtReady
      ensures var r := Run(maxBulkLen, old(At()), data[pos..]);
              && pos' == pos + r.used
              && At() == (if r.state.Done? then FRESH else r.state)
              && (status == Ready <==> r.state.Done?) && (status == Error <==> r.state.Failed?)
              && (status == Ready ==> argv == r.state.args && out == Classify(argv))
    {
      pos' := ConsumeLoop(data, pos);
      out, argv := Command(UNKNOWN, [], []), [];
      if state == AtReady {
        out, argv := Classify(args), args;
        args, state := [], AtArrayLen;
        status := Ready;
      } else {
        status := if state == AtFailed then Error else NeedMore;
      }
    }
  }

  lemma RunOne(limit: nat, p: Progress, s: Bytes)
    requires !Stopped(p) && s != []
    ensures Continues(limit, p, s, Step(limit, p, s[0]), 1)
  {
  }

  /** One pass over the current state: where it leaves the parser, and whether the call ends there. */
  ghost predicate Consumed(limit: nat, p: Progress, q: Progress, data: Bytes, pos: nat, pos': nat, stop: Option<Status>)
    requires pos <= |data|
  {
    && pos <= pos' <= |data|
    && Continues(limit, p, data[pos..], q, pos' - pos)
    && match stop
       case None => pos < pos' && !q.Failed?
       case Some(NeedMore) => pos' == |data| && !Stopped(q)
       case Some(Error) => q.Failed?
       case Some(Ready) => false
  }

  // ---------------------------------------------------------------- reading a stream

  function ClassifyAll(argvs: seq<seq<Bytes>>): seq<Command> {
    seq(|argvs|, i requires 0 <= i < |argvs| => Classify(argvs[i]))
  }

  lemma ClassifySnoc(argvs: seq<seq<Bytes>>, argv: seq<Bytes>)
    ensures ClassifyAll(argvs + [argv]) == ClassifyAll(argvs) + [Classify(argv)]
  {
  }

  /** Takes every command off one received chunk, until an error. `before` is what was delivered earlier. */
  method ReadChunk(parser: Parser, chunk: Bytes, ghost before: seq<seq<Bytes>>)
    returns (cmds: seq<Command>, ghost argvs: seq<seq<Bytes>>)
    requires parser.Valid() && parser.state != AtReady
    modifies parser
    ensures parser.Valid() && parser.state != AtReady && cmds == ClassifyAll(argvs)
    ensures FeedAll(parser.maxBulkLen, Feed(old(parser.At()), before), chunk) == Feed(parser.At(), before + argvs)
  {
    hide Run, Classify, FeedAll;
    ghost var limit, goal := parser.maxBulkLen, FeedAll(parser.maxBulkLen, Feed(parser.At(), before), chunk);
    cmds, argvs := [], [];
    var pos := 0;
    assert chunk[0..] == chunk && before + [] == before;
    while pos < |chunk|
      invariant parser.Valid() && parser.state != AtReady && pos <= |chunk| && cmds == ClassifyAll(argvs)
      invariant FeedAll(limit, Feed(parser.At(), before + argvs), chunk[pos..]) == goal
      decreases |chunk| - pos
    {
      ghost var f, rest := Feed(parser.At(), before + argvs), chunk[pos..];
      OneCall(limit, f, rest);
      var status, next, cmd;
      ghost var argv;
      status, next, cmd, argv := parser.Consume(chunk, pos);
      assert rest[next - pos..] == chunk[next..];
      if status == Error {
        FeedFailed(limit, Feed(parser.At(), before + argvs), chunk[next..]);
        return;
      }
      pos := next;
      if status == NeedMore {
        break;
      }
      ClassifySnoc(argvs, argv);
      assert before + argvs + [argv] == before + (argvs + [argv]);
      cmds, argvs := cmds + [cmd], argvs + [argv];
    }
    assert chunk[pos..] == [];
    FeedNothing(limit, Feed(parser.At(), before + argvs));
  }

  /** What one call of `consume` on `s` leaves to be read. */
  lemma OneCall(limit: nat, f: Feed, s: Bytes)
    requires !f.state.Done? && s != []
    ensures var r := Run(limit, f.state, s);
            && FeedAll(limit, f, s) == FeedAll(limit, Resume(f, r.state), s[r.used..])
            && (r.state.Failed? || r.used > 0) && (Stopped(r.state) || s[r.used..] == [])
  {
    FeedByFrames(limit, f, s);
    RunMoves(limit, f.state, s);
  }

  /**
   Fragmentation independence: however a stream is cut into received chunks, reading them one after another delivers
   the commands, and leaves the state and the first error, of reading the whole stream byte by byte.
   */
  method ReadChunks(parser: Parser, chunks: seq<Bytes>) returns (cmds: seq<Command>, ghost argvs: seq<seq<Bytes>>)
    requires parser.Valid() && parser.state != AtReady
    modifies parser
    ensures parser.Valid() && parser.state != AtReady && cmds == ClassifyAll(argvs)
    ensures FeedAll(parser.maxBulkLen, Feed(old(parser.At()), []), Concat(chunks)) == Feed(parser.At(), argvs)
  {
    hide FeedAll, Classify;
    ghost var limit, start := parser.maxBulkLen, Feed(parser.At(), []);
    cmds, argvs := [], [];
    assert chunks[0..] == chunks;
    for i := 0 to |chunks|
      invariant parser.Valid() && parser.state != AtReady && cmds == ClassifyAll(argvs)
      invariant FeedChunks(limit, Feed(parser.At(), argvs), chunks[i..]) == FeedChunks(limit, start, chunks)
    {
      var more;
      ghost var moreArgvs;
      more, moreArgvs := ReadChunk(parser, chunks[i], argvs);
      assert chunks[i..][1..] == chunks[i + 1..];
      cmds, argvs := cmds + more, argvs + moreArgvs;
    }
    FragmentationIndependent(limit, start, chunks);
  }

  lemma FeedNothing(limit: nat, f: Feed)
    requires !f.state.Done?
    ensures FeedAll(limit, f, []) == f
  {
  }
}
