/** Streams of pipelined requests: fragmentation, and the round trip with the encoder. */
module RespStream {
  import opened ByteStrings
  import opened Decimal
  import opened RespMachine

  /** A parser reading an unbounded stream: where it is, and the argument lists it has delivered. */
  datatype Feed = Feed(state: Progress, argvs: seq<seq<Bytes>>)

  const START: Feed := Feed(FRESH, [])

  /** One more byte. A finished frame is delivered at once, and nothing follows an error. */
  function FeedByte(limit: nat, f: Feed, c: Byte): (r: Feed)
    requires !f.state.Done?
    ensures !r.state.Done?
  {
    if f.state.Failed? then f
    else match Step(limit, f.state, c)
      case Done(args) => Feed(FRESH, f.argvs + [args])
      case q => Feed(q, f.argvs)
  }

  function FeedAll(limit: nat, f: Feed, s: Bytes): (r: Feed)
    requires !f.state.Done?
    ensures !r.state.Done?
    decreases |s|
  {
    if s == [] then f else FeedAll(limit, FeedByte(limit, f, s[0]), s[1..])
  }

  /** What one call of `consume` adds to the stream, and what it leaves for the next call. */
  function Resume(f: Feed, state: Progress): (r: Feed)
    ensures !r.state.Done?
  {
    if state.Done? then Feed(FRESH, f.argvs + [state.args]) else Feed(state, f.argvs)
  }

  /** Reading frame by frame is reading byte by byte. */
  lemma {:induction false} FeedByFrames(limit: nat, f: Feed, s: Bytes)
    requires !f.state.Done?
    ensures var r := Run(limit, f.state, s);
            FeedAll(limit, f, s) == FeedAll(limit, Resume(f, r.state), s[r.used..])
    decreases |s|
  {
    if f.state.Failed? || s == [] {
      assert s[0..] == s;
    } else {
      var q := Step(limit, f.state, s[0]);
      if q.Done? {
        assert Run(limit, f.state, s) == Stop(q, 1);
      } else {
        FeedByFrames(limit, Feed(q, f.argvs), s[1..]);
        var r := Run(limit, q, s[1..]);
        assert s[1..][r.used..] == s[r.used + 1..];
      }
    }
  }

  lemma RunMoves(limit: nat, p: Progress, s: Bytes)
    ensures Stopped(p) || s == [] <==> Run(limit, p, s).used == 0
  {
  }

  /** What one call of `consume` takes off a stream leads exactly where the call ends. */
  lemma FeedOneCall(limit: nat, f: Feed, s: Bytes)
    requires !f.state.Done?
    ensures var r := Run(limit, f.state, s); FeedAll(limit, f, s[..r.used]) == Resume(f, r.state)
  {
    var r := Run(limit, f.state, s);
    var taken := s[..r.used];
    RunConcat(limit, f.state, taken, s[r.used..]);
    assert taken + s[r.used..] == s;
    var q := Run(limit, f.state, taken);
    RunMoves(limit, q.state, s[r.used..]);
    assert q == r;
    FeedByFrames(limit, f, taken);
    assert taken[r.used..] == [];
  }

  /** Once a frame has failed, the rest of the stream is ignored. */
  lemma {:induction false} FeedFailed(limit: nat, f: Feed, s: Bytes)
    requires f.state.Failed?
    ensures FeedAll(limit, f, s) == f
    decreases |s|
  {
    if s != [] { FeedFailed(limit, f, s[1..]); }
  }

  lemma {:induction false} FeedConcat(limit: nat, f: Feed, a: Bytes, b: Bytes)
    requires !f.state.Done?
    ensures FeedAll(limit, f, a + b) == FeedAll(limit, FeedAll(limit, f, a), b)
    decreases |a|
  {
    if a == [] {
      assert a + b == b;
    } else {
      assert (a + b)[0] == a[0] && (a + b)[1..] == a[1..] + b;
      FeedConcat(limit, FeedByte(limit, f, a[0]), a[1..], b);
    }
  }

  /** Feeding one received chunk after another. */
  function FeedChunks(limit: nat, f: Feed, chunks: seq<Bytes>): (r: Feed)
    requires !f.state.Done?
    ensures !r.state.Done?
    decreases |chunks|
  {
    if chunks == [] then f else FeedChunks(limit, FeedAll(limit, f, chunks[0]), chunks[1..])
  }

  /** Fragmentation independence: however a stream is cut up, it delivers the same commands and error. */
  lemma {:induction false} FragmentationIndependent(limit: nat, f: Feed, chunks: seq<Bytes>)
    requires !f.state.Done?
    ensures FeedChunks(limit, f, chunks) == FeedAll(limit, f, Concat(chunks))
    decreases |chunks|
  {
    if chunks != [] {
      FragmentationIndependent(limit, FeedAll(limit, f, chunks[0]), chunks[1..]);
      FeedConcat(limit, f, chunks[0], Concat(chunks[1..]));
    }
  }

  /** A frame at the front of a stream delivers exactly its arguments, wherever the frame is cut. */
  lemma FeedFrame(limit: nat, argvs: seq<seq<Bytes>>, b: Bytes, args: seq<Bytes>, rest: Bytes)
    requires IsFrame(limit, b, args)
    ensures FeedAll(limit, Feed(FRESH, argvs), b + rest) == FeedAll(limit, Feed(FRESH, argvs + [args]), rest)
  {
    assert (b + rest)[..|b|] == b && (b + rest)[|b|..] == rest;
    AcceptsExactlyFrames(limit, b + rest, |b|, args);
    FeedByFrames(limit, Feed(FRESH, argvs), b + rest);
  }

  // ---------------------------------------------------------------- the encoder

  function EncodeBulk(arg: Bytes): Bytes { ['$'] + Print(|arg|) + CRLF + arg + CRLF }

  function EncodeBulks(args: seq<Bytes>): Bytes {
    if args == [] then [] else EncodeBulk(args[0]) + EncodeBulks(args[1..])
  }

  /** What a client sends for one command. */
  function Encode(args: seq<Bytes>): Bytes { ['*'] + Print(|args|) + CRLF + EncodeBulks(args) }

  function EncodeAll(argvs: seq<seq<Bytes>>): Bytes {
    if argvs == [] then [] else Encode(argvs[0]) + EncodeAll(argvs[1..])
  }

  /** The commands the parser's limits admit. */
  predicate Encodable(limit: nat, args: seq<Bytes>) {
    |args| <= MAX_ARGS && forall i :: 0 <= i < |args| ==> |args[i]| <= limit && |args[i]| < Pow10(MAX_DIGITS)
  }

  /** The limits in figures. */
  lemma EncodableMeans(limit: nat, args: seq<Bytes>)
    ensures Encodable(limit, args) <==>
            && |args| <= 1024
            && forall i :: 0 <= i < |args| ==> |args[i]| <= limit && |args[i]| < 1_000_000_000_000_000_000
  {
    assert Pow10(4) == 10_000;
    assert Pow10(7) == 10_000_000;
    assert Pow10(10) == 10_000_000_000;
    assert Pow10(13) == 10_000_000_000_000;
    assert Pow10(16) == 10_000_000_000_000_000;
  }

  function LineOf(n: nat): Line { Line(Print(n), CRLF) }

  function BulksOf(args: seq<Bytes>): seq<Bulk> {
    seq(|args|, i requires 0 <= i < |args| => Bulk(LineOf(|args[i]|), args[i], CRLF))
  }

  lemma BodiesOf(args: seq<Bytes>)
    ensures |BulksOf(args)| == |args| && Bodies(BulksOf(args)) == args
  {
  }

  lemma IsLineOf(n: nat)
    requires n < Pow10(MAX_DIGITS)
    ensures IsLine(LineOf(n), n)
  {
    ValueOfPrint(n);
    PrintLength(n, MAX_DIGITS);
  }

  lemma {:induction false} EncodeBulksSnoc(args: seq<Bytes>, x: Bytes)
    ensures EncodeBulks(args + [x]) == EncodeBulks(args) + EncodeBulk(x)
  {
    if args == [] {
      assert args + [x] == [x] && [x][1..] == [];
      assert EncodeBulks([x]) == EncodeBulk(x) + EncodeBulks([]);
    } else {
      assert (args + [x])[0] == args[0] && (args + [x])[1..] == args[1..] + [x];
      EncodeBulksSnoc(args[1..], x);
    }
  }

  lemma {:induction false} EncodeIsFrontText(count: Line, args: seq<Bytes>)
    ensures FrontText(count, BulksOf(args)) == LineText('*', count) + EncodeBulks(args)
    decreases |args|
  {
    hide Print;
    hide CRLF;
    if args != [] {
      var k := |args| - 1;
      EncodeIsFrontText(count, args[..k]);
      assert BulksOf(args)[..k] == BulksOf(args[..k]);
      EncodeBulksSnoc(args[..k], args[k]);
      assert args[..k] + [args[k]] == args;
      assert BulkText(BulksOf(args)[k]) == EncodeBulk(args[k]);
    }
  }

  lemma {:induction false} Pow10Monotone(a: nat, b: nat)
    requires a <= b
    ensures Pow10(a) <= Pow10(b)
    decreases b - a
  {
    if a < b { Pow10Monotone(a, b - 1); }
  }

  /** An encoding is a frame carrying what was encoded exactly when the parser's limits admit the command. */
  lemma EncodeIsFrame(limit: nat, args: seq<Bytes>)
    ensures IsFrame(limit, Encode(args), args) <==> Encodable(limit, args)
  {
    if Encodable(limit, args) {
      FrontEncodes(limit, |args|, args);
      EncodeIsFrontText(LineOf(|args|), args);
      BodiesOf(args);
      assert IsFrameOf(limit, Encode(args), args, LineOf(|args|), BulksOf(args));
    }
    if IsFrame(limit, Encode(args), args) {
      var count: Line, bulks: seq<Bulk> :| IsFrameOf(limit, Encode(args), args, count, bulks);
      forall i | 0 <= i < |args| ensures |args[i]| <= limit && |args[i]| < Pow10(MAX_DIGITS) {
        assert args[i] == bulks[i].body && IsBulk(limit, bulks[i]);
        ValueBound(bulks[i].length.digits);
        Pow10Monotone(|bulks[i].length.digits|, MAX_DIGITS);
      }
    }
  }

  /** Round trip: the encodings of any admitted commands, one after another, deliver exactly those commands. */
  lemma {:induction false} RoundTrip(limit: nat, before: seq<seq<Bytes>>, argvs: seq<seq<Bytes>>)
    requires forall i :: 0 <= i < |argvs| ==> Encodable(limit, argvs[i])
    ensures FeedAll(limit, Feed(FRESH, before), EncodeAll(argvs)) == Feed(FRESH, before + argvs)
    decreases |argvs|
  {
    hide IsFrame, Encode, Encodable;
    if argvs == [] {
      assert before + argvs == before;
    } else {
      EncodeIsFrame(limit, argvs[0]);
      FeedFrame(limit, before, Encode(argvs[0]), argvs[0], EncodeAll(argvs[1..]));
      RoundTrip(limit, before + [argvs[0]], argvs[1..]);
      assert before + [argvs[0]] + argvs[1..] == before + argvs;
    }
  }

  // ---------------------------------------------------------------- what is beyond the limits

  /** The header of a number that the parser refuses: an argument count, or a bulk length. */
  lemma HeaderRefused(limit: nat, p: Progress, tag: Byte, n: nat)
    requires (p.ArrayLen? || p.BulkLen?) && p.header == []
    requires if p.ArrayLen? then tag == '*' && n > MAX_ARGS else tag == '$' && (n > limit || n >= Pow10(MAX_DIGITS))
    ensures Run(limit, p, [tag] + Print(n) + CRLF).state.Failed?
  {
    hide Run;
    var digits := Print(n);
    var w := [tag] + digits + ['\r'];
    assert [tag] + digits + CRLF == w + ['\n'];
    assert forall i :: 0 <= i < |digits| ==> IsDigit(digits[i]);
    RunAnyHeader(limit, p, w);
    assert StripCr(w) == [tag] + digits;
    assert ([tag] + digits)[1..] == digits;
    ValueOfPrint(n);
    PrintLength(n, MAX_DIGITS);
  }

  lemma FailedAtOnce(limit: nat, before: seq<seq<Bytes>>, a: Bytes, rest: Bytes)
    requires Run(limit, FRESH, a).state.Failed?
    ensures FeedAll(limit, Feed(FRESH, before), a + rest) == Feed(Run(limit, FRESH, a).state, before)
  {
    hide Run;
    RunConcat(limit, FRESH, a, rest);
    var r := Run(limit, FRESH, a + rest);
    FeedByFrames(limit, Feed(FRESH, before), a + rest);
    FeedFailed(limit, Feed(r.state, before), (a + rest)[r.used..]);
  }

  lemma {:induction false} EncodeBulksSplit(args: seq<Bytes>, j: nat)
    requires j < |args|
    ensures EncodeBulks(args) == EncodeBulks(args[..j]) + EncodeBulk(args[j]) + EncodeBulks(args[j + 1..])
    decreases j
  {
    hide EncodeBulk;
    if j == 0 {
      assert args[..0] == [] && EncodeBulks(args[..0]) == [];
      assert [] + EncodeBulk(args[0]) == EncodeBulk(args[0]);
    } else {
      EncodeBulksSplit(args[1..], j - 1);
      assert args[1..][..j - 1] == args[..j][1..] && args[1..][j - 1 + 1..] == args[j + 1..];
      assert EncodeBulks(args[..j]) == EncodeBulk(args[0]) + EncodeBulks(args[..j][1..]);
    }
  }

  lemma TooManyFail(limit: nat, before: seq<seq<Bytes>>, args: seq<Bytes>, rest: Bytes)
    requires |args| > MAX_ARGS
    ensures var f := FeedAll(limit, Feed(FRESH, before), Encode(args) + rest); f.state.Failed? && f.argvs == before
  {
    hide Run, FeedAll;
    var header := ['*'] + Print(|args|) + CRLF;
    HeaderRefused(limit, FRESH, '*', |args|);
    assert Encode(args) + rest == header + (EncodeBulks(args) + rest);
    FailedAtOnce(limit, before, header, EncodeBulks(args) + rest);
  }

  /** The first argument that is too long. */
  lemma FirstOverlong(limit: nat, args: seq<Bytes>) returns (j: nat)
    requires |args| <= MAX_ARGS && !Encodable(limit, args)
    ensures j < |args| && Encodable(limit, args[..j]) && (|args[j]| > limit || |args[j]| >= Pow10(MAX_DIGITS))
  {
    j := 0;
    while |args[j]| <= limit && |args[j]| < Pow10(MAX_DIGITS)
      invariant j < |args| && forall i :: 0 <= i < j ==> |args[i]| <= limit && |args[i]| < Pow10(MAX_DIGITS)
      decreases |args| - j
    {
      j := j + 1;
    }
  }

  /** The encoding up to an argument, the header of that argument, and what follows it. */
  lemma EncodingCut(args: seq<Bytes>, j: nat, rest: Bytes)
    requires j < |args|
    ensures Encode(args) + rest ==
            LineText('*', LineOf(|args|)) + EncodeBulks(args[..j]) + (['$'] + Print(|args[j]|) + CRLF) +
            (args[j] + CRLF + EncodeBulks(args[j + 1..]) + rest)
  {
    hide Print, CRLF;
    EncodeBulksSplit(args, j);
  }

  /** The arguments before `j` are read, and then the header of the next one fails. */
  lemma FailsAt(limit: nat, args: seq<Bytes>, j: nat)
    requires j < |args| <= MAX_ARGS && Encodable(limit, args[..j])
    requires |args[j]| > limit || |args[j]| >= Pow10(MAX_DIGITS)
    ensures var front := LineText('*', LineOf(|args|)) + EncodeBulks(args[..j]);
            Run(limit, FRESH, front + (['$'] + Print(|args[j]|) + CRLF)).state.Failed?
  {
    var count, bulks := LineOf(|args|), BulksOf(args[..j]);
    FrontEncodes(limit, |args|, args[..j]);
    hide Run, IsFront, FrontText, Print, CRLF, Encodable, LineText, Bodies, BulksOf, EncodeBulks;
    BodiesOf(args[..j]);
    EncodeIsFrontText(count, args[..j]);
    RunFront(limit, |args|, count, bulks);
    RunConcat(limit, FRESH, FrontText(count, bulks), ['$'] + Print(|args[j]|) + CRLF);
    HeaderRefused(limit, BulkLen(|args|, args[..j], []), '$', |args[j]|);
  }

  lemma FrontEncodes(limit: nat, argc: nat, args: seq<Bytes>)
    requires argc <= MAX_ARGS && Encodable(limit, args)
    ensures IsFront(limit, argc, LineOf(argc), BulksOf(args))
  {
    assert argc < Pow10(MAX_DIGITS) by { assert Pow10(4) == 10000; Pow10Monotone(4, MAX_DIGITS); }
    IsLineOf(argc);
    forall i | 0 <= i < |args| ensures IsBulk(limit, BulksOf(args)[i]) { IsLineOf(|args[i]|); }
  }

  lemma OverlongFails(limit: nat, before: seq<seq<Bytes>>, args: seq<Bytes>, rest: Bytes)
    requires |args| <= MAX_ARGS && !Encodable(limit, args)
    ensures var f := FeedAll(limit, Feed(FRESH, before), Encode(args) + rest); f.state.Failed? && f.argvs == before
  {
    hide Run, FeedAll, Encode, Encodable, LineText, Print;
    var j := FirstOverlong(limit, args);
    FailsAt(limit, args, j);
    EncodingCut(args, j, rest);
    var front := LineText('*', LineOf(|args|)) + EncodeBulks(args[..j]) + (['$'] + Print(|args[j]|) + CRLF);
    FailedAtOnce(limit, before, front, args[j] + CRLF + EncodeBulks(args[j + 1..]) + rest);
  }

  /** An encoded command is delivered if the limits admit it, and otherwise it is an error, with nothing delivered. */
  lemma DeliveredOrRefused(limit: nat, before: seq<seq<Bytes>>, args: seq<Bytes>, rest: Bytes)
    ensures var f := FeedAll(limit, Feed(FRESH, before), Encode(args) + rest);
            if Encodable(limit, args) then f == FeedAll(limit, Feed(FRESH, before + [args]), rest)
            else f.state.Failed? && f.argvs == before
  {
    hide FeedAll, Encode, Encodable, IsFrame;
    if Encodable(limit, args) {
      EncodeIsFrame(limit, args);
      FeedFrame(limit, before, Encode(args), args, rest);
    } else if |args| > MAX_ARGS {
      TooManyFail(limit, before, args, rest);
    } else {
      OverlongFails(limit, before, args, rest);
    }
  }
}
