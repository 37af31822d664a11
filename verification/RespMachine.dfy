/**
 The RESP2 request grammar, and the parser seen one byte at a time.

 `Step` and `Run` are the byte-level reading of the state machine that `Parser` in Parser.dfy
 runs over whole buffers. `Parsed` says declaratively which byte strings lead to which state.
 */
module RespMachine {
  import opened ByteStrings
  import opened Decimal

  const MAX_ARGS: nat := 1024
  const MAX_HEADER: nat := 32
  const MAX_DIGITS: nat := 18

  // ---------------------------------------------------------------- the machine

  /** What has been read of the current frame. `args` holds the arguments read completely. */
  datatype Progress =
    | ArrayLen(header: Bytes)
    | BulkLen(argc: nat, args: seq<Bytes>, header: Bytes)
    | Payload(argc: nat, args: seq<Bytes>, want: nat, got: Bytes)
    | Trailer(argc: nat, args: seq<Bytes>)
    | TrailerLf(argc: nat, args: seq<Bytes>)
    | Done(args: seq<Bytes>)
    | Failed(error: string)

  const FRESH: Progress := ArrayLen([])

  predicate Stopped(p: Progress) { p.Done? || p.Failed? }

  function StripCr(header: Bytes): Bytes {
    if header != [] && header[|header| - 1] == '\r' then header[..|header| - 1] else header
  }

  predicate IsNumeral(text: Bytes) { 1 <= |text| <= MAX_DIGITS && AllDigits(text) }

  function HeaderNumber(header: Bytes, tag: Byte): Option<nat> {
    if header != [] && header[0] == tag && IsNumeral(header[1..]) then Some(Value(header[1..])) else None
  }

  function OpenArray(header: Bytes): Progress {
    match HeaderNumber(header, '*')
    case None => Failed("invalid array length")
    case Some(n) =>
      if n > MAX_ARGS then Failed("too many arguments") else if n == 0 then Done([]) else BulkLen(n, [], [])
  }

  function OpenBulk(limit: nat, argc: nat, args: seq<Bytes>, header: Bytes): Progress {
    match HeaderNumber(header, '$')
    case None => Failed("invalid bulk length")
    case Some(n) =>
      if n > limit then Failed("bulk length exceeds max-value-size")
      else if n == 0 then Trailer(argc, args + [[]])
      else Payload(argc, args, n, [])
  }

  function CloseBulk(argc: nat, args: seq<Bytes>): Progress {
    if |args| < argc then BulkLen(argc, args, []) else Done(args)
  }

  function Step(limit: nat, p: Progress, c: Byte): Progress
    requires !Stopped(p)
  {
    match p
    case ArrayLen(h) =>
      if c == '\n' then OpenArray(StripCr(h))
      else if |h| >= MAX_HEADER then Failed("invalid array header")
      else ArrayLen(h + [c])
    case BulkLen(argc, args, h) =>
      if c == '\n' then OpenBulk(limit, argc, args, StripCr(h))
      else if |h| >= MAX_HEADER then Failed("invalid bulk header")
      else BulkLen(argc, args, h + [c])
    case Payload(argc, args, want, got) =>
      if |got| + 1 >= want then Trailer(argc, args + [got + [c]]) else Payload(argc, args, want, got + [c])
    case Trailer(argc, args) =>
      if c == '\r' then TrailerLf(argc, args)
      else if c == '\n' then CloseBulk(argc, args)
      else Failed("expected CRLF after bulk payload")
    case TrailerLf(argc, args) =>
      if c == '\n' then CloseBulk(argc, args) else Failed("expected LF after CR")
  }

  /** Where the machine stops on `s`, and how many bytes it took to get there. */
  datatype Stop = Stop(state: Progress, used: nat)

  function Run(limit: nat, p: Progress, s: Bytes): (r: Stop)
    ensures r.used <= |s|
    ensures !Stopped(r.state) ==> r.used == |s|
    decreases |s|
  {
    if Stopped(p) || s == [] then Stop(p, 0)
    else
      var r := Run(limit, Step(limit, p, s[0]), s[1..]);
      Stop(r.state, r.used + 1)
  }

  /** Running over a concatenation is running over the parts, unless the first part already stops. */
  lemma {:induction false} RunConcat(limit: nat, p: Progress, a: Bytes, b: Bytes)
    ensures var r := Run(limit, p, a);
            Run(limit, p, a + b) ==
            if Stopped(r.state) then r
            else var q := Run(limit, r.state, b); Stop(q.state, |a| + q.used)
    decreases |a|
  {
    if a == [] {
      assert a + b == b;
    } else if !Stopped(p) {
      assert (a + b)[0] == a[0] && (a + b)[1..] == a[1..] + b;
      RunConcat(limit, Step(limit, p, a[0]), a[1..], b);
    }
  }

  lemma RunSnoc(limit: nat, p: Progress, a: Bytes, c: Byte)
    requires !Stopped(Run(limit, p, a).state)
    ensures Run(limit, p, a + [c]) == Stop(Step(limit, Run(limit, p, a).state, c), |a| + 1)
  {
    RunConcat(limit, p, a, [c]);
    var q := Run(limit, p, a).state;
    assert [c][1..] == [];
    assert Run(limit, Step(limit, q, c), []) == Stop(Step(limit, q, c), 0);
    assert Run(limit, q, [c]) == Stop(Step(limit, q, c), 1);
  }

  // ---------------------------------------------------------------- the grammar

  /** A header line after its tag: 1 to 18 digits, then CRLF or a bare LF. */
  datatype Line = Line(digits: Bytes, eol: Bytes)

  datatype Bulk = Bulk(length: Line, body: Bytes, eol: Bytes)

  predicate IsEol(eol: Bytes) { eol == ['\r', '\n'] || eol == ['\n'] }

  predicate IsLine(l: Line, n: nat) { IsNumeral(l.digits) && Value(l.digits) == n && IsEol(l.eol) }

  predicate IsBulk(limit: nat, b: Bulk) { |b.body| <= limit && IsLine(b.length, |b.body|) && IsEol(b.eol) }

  function LineText(tag: Byte, l: Line): Bytes { [tag] + l.digits + l.eol }

  function BulkText(b: Bulk): Bytes { LineText('$', b.length) + b.body + b.eol }

  function FrontText(count: Line, bulks: seq<Bulk>): Bytes {
    if bulks == [] then LineText('*', count)
    else FrontText(count, bulks[..|bulks| - 1]) + BulkText(bulks[|bulks| - 1])
  }

  function Bodies(bulks: seq<Bulk>): seq<Bytes> {
    seq(|bulks|, i requires 0 <= i < |bulks| => bulks[i].body)
  }

  /** `count` announces `argc` arguments, and `bulks` are well-formed arguments. */
  ghost predicate IsFront(limit: nat, argc: nat, count: Line, bulks: seq<Bulk>) {
    IsLine(count, argc) && forall i :: 0 <= i < |bulks| ==> IsBulk(limit, bulks[i])
  }

  /** `b` is one request frame, and it carries `args`. */
  ghost predicate IsFrame(limit: nat, b: Bytes, args: seq<Bytes>) {
    exists count: Line, bulks: seq<Bulk> :: IsFrameOf(limit, b, args, count, bulks)
  }

  ghost predicate IsFrameOf(limit: nat, b: Bytes, args: seq<Bytes>, count: Line, bulks: seq<Bulk>) {
    |args| <= MAX_ARGS && IsFront(limit, |args|, count, bulks) && Bodies(bulks) == args && b == FrontText(count, bulks)
  }

  /** The concrete syntax read so far: the count line, the finished bulks, and the current length line. */
  datatype Syntax = Syntax(count: Line, bulks: seq<Bulk>, length: Line)

  /** `b` is the count line and the bulks of `args`, then the length line of a bulk of `want` bytes, then `body`. */
  ghost predicate InsideBulk(limit: nat, b: Bytes, argc: nat, args: seq<Bytes>, want: nat, body: Bytes, t: Syntax) {
    && want <= limit && IsFront(limit, argc, t.count, t.bulks) && Bodies(t.bulks) == args && IsLine(t.length, want)
    && b == FrontText(t.count, t.bulks) + LineText('$', t.length) + body
  }

  /** Reading `b`, with syntax `t`, leaves a fresh parser in state `p`; the bytes of an error are not described. */
  ghost predicate ParsedAs(limit: nat, b: Bytes, p: Progress, t: Syntax) {
    match p
    case ArrayLen(h) => b == h && |h| <= MAX_HEADER
    case BulkLen(argc, args, h) =>
      && |args| < argc <= MAX_ARGS && |h| <= MAX_HEADER
      && IsFront(limit, argc, t.count, t.bulks) && Bodies(t.bulks) == args && b == FrontText(t.count, t.bulks) + h
    case Payload(argc, args, want, got) =>
      |args| < argc <= MAX_ARGS && |got| < want && InsideBulk(limit, b, argc, args, want, got, t)
    case Trailer(argc, args) =>
      && 0 < |args| <= argc <= MAX_ARGS
      && var last := args[|args| - 1];
         InsideBulk(limit, b, argc, args[..|args| - 1], |last|, last, t)
    case TrailerLf(argc, args) =>
      && 0 < |args| <= argc <= MAX_ARGS
      && var last := args[|args| - 1];
         InsideBulk(limit, b, argc, args[..|args| - 1], |last|, last + ['\r'], t)
    case Done(args) => IsFrameOf(limit, b, args, t.count, t.bulks)
    case Failed(_) => true
  }

  // ---------------------------------------------------------------- soundness

  lemma HeaderLine(h: Bytes, tag: Byte) returns (l: Line)
    requires HeaderNumber(StripCr(h), tag).Some?
    ensures IsLine(l, HeaderNumber(StripCr(h), tag).value) && LineText(tag, l) == h + ['\n']
  {
    var s := StripCr(h);
    l := Line(s[1..], if s == h then ['\n'] else ['\r', '\n']);
    assert s == [tag] + s[1..];
    assert h == s || h == s + ['\r'];
    assert h + ['\n'] == s + l.eol;
  }

  lemma FinishBulk(limit: nat, b: Bytes, argc: nat, args: seq<Bytes>, t: Syntax, eol: Bytes) returns (t': Syntax)
    requires 0 < |args| <= argc <= MAX_ARGS && IsEol(eol)
    requires var last := args[|args| - 1]; InsideBulk(limit, b, argc, args[..|args| - 1], |last|, last, t)
    ensures ParsedAs(limit, b + eol, CloseBulk(argc, args), t')
  {
    var bulk := Bulk(t.length, args[|args| - 1], eol);
    t' := t.(bulks := t.bulks + [bulk]);
    assert t'.bulks[..|t.bulks|] == t.bulks;
    assert b + eol == FrontText(t.count, t.bulks) + BulkText(bulk);
    assert |args| - 1 == |args[..|args| - 1]| == |Bodies(t.bulks)| == |t.bulks|;
    assert Bodies(t'.bulks) == Bodies(t.bulks) + [bulk.body] == args;
    assert b + eol == (b + eol) + [];
  }

  lemma StepArrayLen(limit: nat, b: Bytes, p: Progress, t: Syntax, c: Byte) returns (t': Syntax)
    requires ParsedAs(limit, b, p, t) && p.ArrayLen?
    ensures ParsedAs(limit, b + [c], Step(limit, p, c), t')
  {
    t' := t;
    if c == '\n' && HeaderNumber(StripCr(p.header), '*').Some? {
      var l := HeaderLine(p.header, '*');
      t' := Syntax(l, [], l);
      assert b + [c] == FrontText(l, []) + [];
      assert Bodies([]) == [];
    }
  }

  lemma StepBulkLen(limit: nat, b: Bytes, p: Progress, t: Syntax, c: Byte) returns (t': Syntax)
    requires ParsedAs(limit, b, p, t) && p.BulkLen?
    ensures ParsedAs(limit, b + [c], Step(limit, p, c), t')
  {
    hide FrontText, IsFront, LineText, StripCr;
    t' := t;
    if c != '\n' {
      assert b + [c] == FrontText(t.count, t.bulks) + (p.header + [c]);
    } else if HeaderNumber(StripCr(p.header), '$').Some? {
      var l := HeaderLine(p.header, '$');
      t' := t.(length := l);
      assert b + [c] == FrontText(t.count, t.bulks) + LineText('$', l) + [];
      assert (p.args + [[]])[..|p.args|] == p.args;
    }
  }

  lemma StepPayload(limit: nat, b: Bytes, p: Progress, t: Syntax, c: Byte)
    requires ParsedAs(limit, b, p, t) && p.Payload?
    ensures ParsedAs(limit, b + [c], Step(limit, p, c), t)
  {
    assert b + [c] == FrontText(t.count, t.bulks) + LineText('$', t.length) + (p.got + [c]);
    assert (p.args + [p.got + [c]])[..|p.args|] == p.args;
  }

  lemma StepTrailer(limit: nat, b: Bytes, p: Progress, t: Syntax, c: Byte) returns (t': Syntax)
    requires ParsedAs(limit, b, p, t) && p.Trailer?
    ensures ParsedAs(limit, b + [c], Step(limit, p, c), t')
  {
    t' := t;
    if c == '\n' {
      t' := FinishBulk(limit, b, p.argc, p.args, t, ['\n']);
    } else {
      assert b + [c] == FrontText(t.count, t.bulks) + LineText('$', t.length) + (p.args[|p.args| - 1] + [c]);
    }
  }

  lemma StepTrailerLf(limit: nat, b: Bytes, p: Progress, t: Syntax, c: Byte) returns (t': Syntax)
    requires ParsedAs(limit, b, p, t) && p.TrailerLf?
    ensures ParsedAs(limit, b + [c], Step(limit, p, c), t')
  {
    t' := t;
    if c == '\n' {
      var b' := FrontText(t.count, t.bulks) + LineText('$', t.length) + p.args[|p.args| - 1];
      t' := FinishBulk(limit, b', p.argc, p.args, t, ['\r', '\n']);
      assert b + [c] == b' + ['\r', '\n'];
    }
  }

  lemma StepParsed(limit: nat, b: Bytes, p: Progress, t: Syntax, c: Byte) returns (t': Syntax)
    requires ParsedAs(limit, b, p, t) && !Stopped(p)
    ensures ParsedAs(limit, b + [c], Step(limit, p, c), t')
  {
    match p
    case ArrayLen(_) => t' := StepArrayLen(limit, b, p, t, c);
    case BulkLen(_, _, _) => t' := StepBulkLen(limit, b, p, t, c);
    case Payload(_, _, _, _) => StepPayload(limit, b, p, t, c); t' := t;
    case Trailer(_, _) => t' := StepTrailer(limit, b, p, t, c);
    case TrailerLf(_, _) => t' := StepTrailerLf(limit, b, p, t, c);
  }

  /** Wherever the machine is, the bytes it took are the ones `ParsedAs` names. */
  lemma {:induction false} RunSound(limit: nat, b: Bytes, p: Progress, t: Syntax, s: Bytes) returns (t': Syntax)
    requires ParsedAs(limit, b, p, t)
    ensures var r := Run(limit, p, s); ParsedAs(limit, b + s[..r.used], r.state, t')
    decreases |s|
  {
    hide ParsedAs;
    hide Step;
    if Stopped(p) || s == [] {
      assert b + s[..0] == b;
      t' := t;
    } else {
      var q, rest := Step(limit, p, s[0]), s[1..];
      var u := StepParsed(limit, b, p, t, s[0]);
      t' := RunSound(limit, b + [s[0]], q, u, rest);
      var r := Run(limit, q, rest);
      assert b + [s[0]] + rest[..r.used] == b + s[..r.used + 1];
    }
  }

  // ---------------------------------------------------------------- completeness

  /** Header bytes before the newline only accumulate. */
  lemma {:induction false} RunHeader(limit: nat, p: Progress, w: Bytes)
    requires p.ArrayLen? || p.BulkLen?
    requires |p.header| + |w| <= MAX_HEADER && '\n' !in w
    ensures Run(limit, p, w) == Stop(p.(header := p.header + w), |w|)
    decreases |w|
  {
    if w == [] {
      assert p.header + w == p.header;
    } else {
      RunHeader(limit, p.(header := p.header + [w[0]]), w[1..]);
      assert p.header + [w[0]] + w[1..] == p.header + w;
    }
  }

  /** Payload bytes are copied as they come, and the last one closes the payload. */
  lemma {:induction false} RunPayload(limit: nat, p: Progress, w: Bytes)
    requires p.Payload? && |p.got| < p.want && |p.got| + |w| <= p.want
    ensures Run(limit, p, w) ==
            Stop(if |p.got| + |w| == p.want then Trailer(p.argc, p.args + [p.got + w]) else p.(got := p.got + w), |w|)
    decreases |w|
  {
    if w == [] {
      assert p.got + w == p.got;
    } else {
      var got' := p.got + [w[0]];
      assert got' + w[1..] == p.got + w;
      if |got'| < p.want {
        RunPayload(limit, p.(got := got'), w[1..]);
      } else {
        assert w[1..] == [] && w == [w[0]];
        assert Run(limit, Trailer(p.argc, p.args + [got']), []) == Stop(Trailer(p.argc, p.args + [got']), 0);
      }
    }
  }

  function AfterHeader(limit: nat, p: Progress, header: Bytes): Progress
    requires p.ArrayLen? || p.BulkLen?
  {
    if p.ArrayLen? then OpenArray(header) else OpenBulk(limit, p.argc, p.args, header)
  }

  lemma RunHeaderLine(limit: nat, p: Progress, tag: Byte, l: Line, n: nat)
    requires p.ArrayLen? || p.BulkLen?
    requires p.header == [] && IsLine(l, n) && tag != '\n'
    ensures Run(limit, p, LineText(tag, l)) == Stop(AfterHeader(limit, p, [tag] + l.digits), |LineText(tag, l)|)
  {
    hide Run, LineText, IsLine, OpenArray, OpenBulk, StripCr;
    var h := HeaderBytes(tag, l, n);
    RunHeader(limit, p, h);
    assert p.header + h == h;
    RunSnoc(limit, p, h, '\n');
  }

  /** A header line without its LF: what the machine has accumulated when the LF comes. */
  lemma HeaderBytes(tag: Byte, l: Line, n: nat) returns (h: Bytes)
    requires IsLine(l, n) && tag != '\n'
    ensures LineText(tag, l) == h + ['\n'] && StripCr(h) == [tag] + l.digits && '\n' !in h && |h| <= MAX_HEADER
  {
    hide Value;
    var text := [tag] + l.digits;
    h := if l.eol == ['\n'] then text else text + ['\r'];
    assert text[|text| - 1] == l.digits[|l.digits| - 1];
  }

  /** Any header line, well-formed or not: read to its LF if it is short enough, and else an error. */
  lemma RunAnyHeader(limit: nat, p: Progress, w: Bytes)
    requires (p.ArrayLen? || p.BulkLen?) && p.header == [] && '\n' !in w
    ensures |w| <= MAX_HEADER ==>
              Run(limit, p, w + ['\n']) == Stop(AfterHeader(limit, p, StripCr(w)), |w| + 1)
    ensures |w| > MAX_HEADER ==>
              Run(limit, p, w + ['\n']).state ==
              Failed(if p.ArrayLen? then "invalid array header" else "invalid bulk header")
  {
    hide OpenArray, OpenBulk, StripCr;
    if |w| <= MAX_HEADER {
      RunHeader(limit, p, w);
      assert p.header + w == w;
      RunSnoc(limit, p, w, '\n');
    } else {
      var front, rest := w[..MAX_HEADER], w[MAX_HEADER + 1..] + ['\n'];
      RunHeader(limit, p, front);
      assert p.header + front == front;
      RunSnoc(limit, p, front, w[MAX_HEADER]);
      assert w + ['\n'] == front + [w[MAX_HEADER]] + rest;
      RunConcat(limit, p, front + [w[MAX_HEADER]], rest);
    }
  }

  /** What each bad header is reported as. */
  lemma HeaderErrors(limit: nat, argc: nat, args: seq<Bytes>, w: Bytes)
    requires '\n' !in w
    ensures |w| > 32 ==>
              && Run(limit, FRESH, w + ['\n']).state == Failed("invalid array header")
              && Run(limit, BulkLen(argc, args, []), w + ['\n']).state == Failed("invalid bulk header")
    ensures |w| <= 32 ==>
              var text := if w != [] && w[|w| - 1] == '\r' then w[..|w| - 1] else w;
              var readable := 2 <= |text| <= 19 && AllDigits(text[1..]);
              && (!readable || text[0] != '*' ==>
                    Run(limit, FRESH, w + ['\n']).state == Failed("invalid array length"))
              && (readable && text[0] == '*' && Value(text[1..]) > 1024 ==>
                    Run(limit, FRESH, w + ['\n']).state == Failed("too many arguments"))
              && (!readable || text[0] != '$' ==>
                    Run(limit, BulkLen(argc, args, []), w + ['\n']).state == Failed("invalid bulk length"))
              && (readable && text[0] == '$' && Value(text[1..]) > limit ==>
                    Run(limit, BulkLen(argc, args, []), w + ['\n']).state ==
                    Failed("bulk length exceeds max-value-size"))
  {
    hide Run, Value;
    RunAnyHeader(limit, FRESH, w);
    RunAnyHeader(limit, BulkLen(argc, args, []), w);
  }

  /** And each byte after a payload that does not end its line. */
  lemma TrailerErrors(limit: nat, argc: nat, args: seq<Bytes>, c: Byte)
    ensures c != '\r' && c != '\n' ==>
              Step(limit, Trailer(argc, args), c) == Failed("expected CRLF after bulk payload")
    ensures c != '\n' ==> Step(limit, TrailerLf(argc, args), c) == Failed("expected LF after CR")
  {
  }

  lemma RunEol(limit: nat, argc: nat, args: seq<Bytes>, eol: Bytes)
    requires IsEol(eol)
    ensures Run(limit, Trailer(argc, args), eol) == Stop(CloseBulk(argc, args), |eol|)
  {
    var p := Trailer(argc, args);
    assert Run(limit, p, []) == Stop(p, 0);
    if eol == ['\n'] {
      RunSnoc(limit, p, [], '\n');
      assert [] + ['\n'] == eol;
    } else {
      RunSnoc(limit, p, [], '\r');
      assert [] + ['\r'] == ['\r'];
      RunSnoc(limit, p, ['\r'], '\n');
      assert ['\r'] + ['\n'] == eol;
    }
  }

  lemma RunBulk(limit: nat, argc: nat, args: seq<Bytes>, b: Bulk)
    requires |args| < argc && IsBulk(limit, b)
    ensures Run(limit, BulkLen(argc, args, []), BulkText(b)) == Stop(CloseBulk(argc, args + [b.body]), |BulkText(b)|)
  {
    var p := BulkLen(argc, args, []);
    var header := LineText('$', b.length);
    RunHeaderLine(limit, p, '$', b.length, |b.body|);
    assert (['$'] + b.length.digits)[1..] == b.length.digits;
    RunConcat(limit, p, header, b.body);
    if |b.body| > 0 {
      RunPayload(limit, Payload(argc, args, |b.body|, []), b.body);
      assert [] + b.body == b.body;
    } else {
      assert b.body == [];
    }
    assert Run(limit, p, header + b.body) == Stop(Trailer(argc, args + [b.body]), |header + b.body|);
    RunConcat(limit, p, header + b.body, b.eol);
    RunEol(limit, argc, args + [b.body], b.eol);
  }

  lemma {:induction false} RunFront(limit: nat, argc: nat, count: Line, bulks: seq<Bulk>)
    requires |bulks| <= argc <= MAX_ARGS && IsFront(limit, argc, count, bulks)
    ensures var b := FrontText(count, bulks); Run(limit, FRESH, b) == Stop(CloseBulk(argc, Bodies(bulks)), |b|)
    decreases |bulks|
  {
    if bulks == [] {
      RunHeaderLine(limit, FRESH, '*', count, argc);
      assert (['*'] + count.digits)[1..] == count.digits;
      assert Bodies(bulks) == [];
    } else {
      var k := |bulks| - 1;
      RunFront(limit, argc, count, bulks[..k]);
      RunBulk(limit, argc, Bodies(bulks[..k]), bulks[k]);
      RunConcat(limit, FRESH, FrontText(count, bulks[..k]), BulkText(bulks[k]));
      assert Bodies(bulks[..k]) + [bulks[k].body] == Bodies(bulks);
    }
  }

  /**
   Soundness and completeness: the machine accepts `args` after exactly `n` bytes of `s`
   if and only if those bytes are a frame carrying `args`.
   */
  lemma AcceptsExactlyFrames(limit: nat, s: Bytes, n: nat, args: seq<Bytes>)
    requires n <= |s|
    ensures Run(limit, FRESH, s) == Stop(Done(args), n) <==> IsFrame(limit, s[..n], args)
  {
    hide Run;
    if Run(limit, FRESH, s) == Stop(Done(args), n) {
      var l := Line([], []);
      var t := RunSound(limit, [], FRESH, Syntax(l, [], l), s);
      assert [] + s[..n] == s[..n];
    }
    if IsFrame(limit, s[..n], args) {
      var count, bulks :| IsFrameOf(limit, s[..n], args, count, bulks);
      RunFront(limit, |args|, count, bulks);
      RunConcat(limit, FRESH, s[..n], s[n..]);
      assert s[..n] + s[n..] == s;
    }
  }

  /** No frame is a proper prefix of another, and a frame carries one argument list only. */
  lemma FramesArePrefixFree(limit: nat, a: Bytes, rest: Bytes, args: seq<Bytes>, args': seq<Bytes>)
    requires IsFrame(limit, a, args) && IsFrame(limit, a + rest, args')
    ensures rest == [] && args == args'
  {
    assert (a + rest)[..|a|] == a;
    AcceptsExactlyFrames(limit, a + rest, |a|, args);
    assert (a + rest)[..|a + rest|] == a + rest;
    AcceptsExactlyFrames(limit, a + rest, |a + rest|, args');
  }
}
