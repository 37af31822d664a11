/** RESP2 replies: how the server serialises them and how a client reads them back. */
module Replies {
  import opened ByteStrings
  import opened Decimal

  /** A small owned text, or a header, a shared value and a trailer. */
  datatype Response = Response(head: Bytes, blob: Option<Bytes>, tail: Bytes)

  function Text(line: Bytes): Response { Response(line, None, []) }

  function BulkHeader(n: nat): Bytes { ['$'] + Print(n) + CRLF }

  function BulkString(value: Bytes): Response { Response(BulkHeader(|value|), Some(value), CRLF) }

  predicate EndsLine(s: Bytes) { |s| >= 2 && s[|s| - 2..] == CRLF }

  /** `queue_response` ends a text reply's line if it is not ended already. */
  function Finish(r: Response): Response {
    if r.blob.None? && !EndsLine(r.head) then r.(head := r.head + CRLF) else r
  }

  /** The bytes of a response. */
  function Wire(r: Response): Bytes { r.head + (if r.blob.Some? then r.blob.value else []) + r.tail }

  // ---------------------------------------------------------------- the client's reader

  ghost predicate HasCrlf(s: Bytes) { exists i :: CrlfAt(s, i) }

  predicate CrlfAt(s: Bytes, i: int) { 0 <= i < |s| - 1 && s[i] == '\r' && s[i + 1] == '\n' }

  /** Where the first line of `s` ends, or `|s|` if it does not. */
  function LineEnd(s: Bytes): (i: nat)
    ensures i <= |s| && (i < |s| ==> CrlfAt(s, i)) && forall j :: CrlfAt(s, j) ==> i <= j
  {
    if |s| < 2 then |s|
    else if s[0] == '\r' && s[1] == '\n' then 0
    else
      var i := 1 + LineEnd(s[1..]);
      assert forall j :: CrlfAt(s, j) ==> CrlfAt(s[1..], j - 1);
      i
  }

  datatype Reply = Status(text: Bytes) | ErrorReply(text: Bytes) | Number(number: int) | Data(value: Bytes) | Nil

  function SignedNumber(s: Bytes): Option<int> {
    if s != [] && AllDigits(s) then Some(Value(s))
    else if |s| > 1 && s[0] == '-' && AllDigits(s[1..]) then var n: int := Value(s[1..]); Some(-n)
    else None
  }

  /** One reply off the front of `s`, and how many bytes it took. */
  function ReadReply(s: Bytes): Option<(Reply, nat)> {
    var i := LineEnd(s);
    if i >= |s| || i == 0 then None
    else
      var body := s[1..i];
      match s[0]
      case '+' => Some((Status(body), i + 2))
      case '-' => Some((ErrorReply(body), i + 2))
      case ':' =>
        (match SignedNumber(body)
         case Some(n) => Some((Number(n), i + 2))
         case None => None)
      case '$' =>
        (match SignedNumber(body)
         case None => None
         case Some(n) =>
           if n < 0 then Some((Nil, i + 2))
           else if i + 2 + n + 2 > |s| || s[i + 2 + n..i + 2 + n + 2] != CRLF then None
           else Some((Data(s[i + 2..i + 2 + n]), i + 2 + n + 2)))
      case _ => None
  }

  /** Every reply in `s`, if `s` is nothing but replies. */
  function ReadAll(s: Bytes): Option<seq<Reply>>
    decreases |s|
  {
    if s == [] then Some([])
    else
      match ReadReply(s)
      case None => None
      case Some((reply, n)) =>
        if n == 0 || n > |s| then None
        else
          match ReadAll(s[n..])
          case None => None
          case Some(rest) => Some([reply] + rest)
  }

  // ---------------------------------------------------------------- what is read is what was sent

  lemma ReplyThenRest(s: Bytes, reply: Reply, n: nat)
    requires ReadReply(s) == Some((reply, n)) && 0 < n <= |s|
    ensures ReadAll(s) == match ReadAll(s[n..]) { case Some(rest) => Some([reply] + rest) case None => None }
  {
    hide ReadReply;
    assert s != [];
  }

  lemma CrlfInPrefix(a: Bytes, b: Bytes, i: int)
    requires i + 1 < |a|
    ensures CrlfAt(a + b, i) <==> CrlfAt(a, i)
  {
  }

  /** Text before an echoed string that holds no CR adds no line end. */
  lemma CrlfAfterPrefix(prefix: Bytes, s: Bytes)
    requires '\r' !in prefix
    ensures HasCrlf(prefix + s) <==> HasCrlf(s)
  {
    var k := |prefix|;
    if HasCrlf(s) {
      var i :| CrlfAt(s, i);
      assert CrlfAt(prefix + s, k + i);
    }
    if HasCrlf(prefix + s) {
      var i :| CrlfAt(prefix + s, i);
      assert forall j :: 0 <= j < k ==> (prefix + s)[j] == prefix[j];
      assert CrlfAt(s, i - k);
    }
  }

  lemma CrlfAtEnd(s: Bytes)
    ensures CrlfAt(s, |s| - 2) ==> EndsLine(s)
  {
  }

  /** The first line of a finished text ends at the end of the text exactly when no line end comes earlier. */
  lemma TextLineEnd(line: Bytes, rest: Bytes)
    requires line != []
    ensures var w := Wire(Finish(Text(line)));
            |w| >= 2 && (LineEnd(w + rest) == |w| - 2 <==> !HasCrlf(line[..|line| - 1]))
  {
    var w := Wire(Finish(Text(line)));
    var body := line[..|line| - 1];
    assert w == if EndsLine(line) then line else line + CRLF;
    assert CrlfAt(w + rest, |w| - 2);
    var i := LineEnd(w + rest);
    if i < |w| - 2 {
      assert CrlfAt(w + rest, i);
      CrlfInPrefix(w, rest, i);
      CrlfAtEnd(line);
      assert CrlfAt(body, i);
    }
    if HasCrlf(body) {
      var j :| CrlfAt(body, j);
      assert CrlfAt(w, j);
      CrlfInPrefix(w, rest, j);
    }
  }

  /** A status or error text is read back as one reply, of exactly its own bytes, unless a line end comes early. */
  lemma TextReads(line: Bytes, rest: Bytes)
    requires line != [] && (line[0] == '+' || line[0] == '-')
    ensures var w := Wire(Finish(Text(line)));
            var r := ReadReply(w + rest);
            r.Some? && r.value.1 <= |w| && (r.value.1 == |w| <==> !HasCrlf(line[..|line| - 1]))
  {
    TextLineEnd(line, rest);
    var w := Wire(Finish(Text(line)));
    assert (w + rest)[0] == line[0];
    assert CrlfAt(w + rest, |w| - 2);
  }

  lemma DigitsOnly(n: nat)
    ensures '\r' !in Print(n) && SignedNumber(Print(n)) == Some(n)
  {
    ValueOfPrint(n);
    assert forall i :: 0 <= i < |Print(n)| ==> IsDigit(Print(n)[i]);
  }

  /** A header line with no CR before its end is read as that line. */
  lemma CleanLine(line: Bytes, rest: Bytes)
    requires '\r' !in line
    ensures LineEnd(line + CRLF + rest) == |line|
  {
    var s := line + CRLF + rest;
    assert CrlfAt(s, |line|);
    var i := LineEnd(s);
    assert forall j :: 0 <= j < |line| ==> s[j] == line[j];
  }

  /** A bulk of `value`, with anything after it, is read back as exactly `value`. */
  lemma BulkBytesRead(value: Bytes, rest: Bytes)
    ensures var w := BulkHeader(|value|) + value + CRLF;
            ReadReply(w + rest) == Some((Data(value), |w|))
  {
    var w := BulkHeader(|value|) + value + CRLF;
    var line := ['$'] + Print(|value|);
    var s := w + rest;
    DigitsOnly(|value|);
    assert s == line + CRLF + (value + CRLF + rest);
    CleanLine(line, value + CRLF + rest);
    assert s[1..|line|] == Print(|value|);
    assert s[|line| + 2..|line| + 2 + |value|] == value;
    assert s[|line| + 2 + |value|..|line| + 2 + |value| + 2] == CRLF;
  }

  /** The same for the reply a stored value goes out in. */
  lemma BulkReads(value: Bytes, rest: Bytes)
    ensures var w := Wire(Finish(BulkString(value))); w != [] && ReadReply(w + rest) == Some((Data(value), |w|))
  {
    BulkBytesRead(value, rest);
  }

  /** Whether `w`, whatever follows it, is read as one reply of exactly its own bytes. */
  ghost predicate IsOneReply(w: Bytes) {
    && w != []
    && forall rest: Bytes :: ReadReply(w + rest).Some? && ReadReply(w + rest).value.1 == |w|
  }

  /** Whether `w`, whatever follows it, is read as a reply that ends before `w` does. */
  ghost predicate IsCutShort(w: Bytes) {
    forall rest: Bytes :: ReadReply(w + rest).Some? && ReadReply(w + rest).value.1 < |w|
  }

  lemma NotBoth(w: Bytes)
    ensures !(IsOneReply(w) && IsCutShort(w))
  {
    if IsOneReply(w) { assert ReadReply(w + []).value.1 == |w|; }
  }

  /** What `w` is read as. */
  function ReplyOf(w: Bytes): Reply {
    match ReadReply(w)
    case Some((reply, _)) => reply
    case None => Nil
  }

  /** A reply is read the same alone and in front of other bytes. */
  lemma SameReply(w: Bytes, rest: Bytes)
    requires IsOneReply(w)
    ensures ReadReply(w + rest) == Some((ReplyOf(w), |w|))
  {
    assert w + [] == w;
    assert ReadReply(w + []).value.1 == |w| && ReadReply(w + rest).value.1 == |w|;
    SameLine(w, rest);
  }

  lemma SameLine(w: Bytes, rest: Bytes)
    requires ReadReply(w).Some? && ReadReply(w).value.1 == |w|
    requires ReadReply(w + rest).Some? && ReadReply(w + rest).value.1 == |w|
    ensures ReadReply(w + rest).value.0 == ReadReply(w).value.0
  {
    var i := LineEnd(w);
    assert CrlfAt(w + rest, i);
    var j := LineEnd(w + rest);
    assert CrlfAt(w, j);
    assert i == j && (w + rest)[1..i] == w[1..i] && (w + rest)[0] == w[0];
    if w[0] == '$' && SignedNumber(w[1..i]).value >= 0 {
      var n := SignedNumber(w[1..i]).value;
      assert (w + rest)[i + 2..i + 2 + n] == w[i + 2..i + 2 + n];
    }
  }

  /** An error line is read as an error, and the reader goes on behind it. */
  lemma ErrorLine(line: Bytes, rest: Bytes)
    requires line != [] && line[0] == '-' && '\r' !in line
    ensures ReadAll(line + CRLF + rest) ==
            match ReadAll(rest) { case Some(more) => Some([ErrorReply(line[1..])] + more) case None => None }
  {
    var s := line + CRLF + rest;
    CleanLine(line, rest);
    assert s[1..|line|] == line[1..] && s[|line| + 2..] == rest;
    ReplyThenRest(s, ErrorReply(line[1..]), |line| + 2);
  }

  lemma TwoReplies(error: Bytes, status: Bytes)
    requires error != [] && error[0] == '-' && '\r' !in error
    requires status != [] && status[0] == '+' && '\r' !in status
    ensures ReadAll(error + CRLF + (status + CRLF)) == Some([ErrorReply(error[1..]), Status(status[1..])])
  {
    ErrorLine(error, status + CRLF);
    var s := status + CRLF + [];
    assert s == status + CRLF;
    CleanLine(status, []);
    assert s[1..|status|] == status[1..] && s[|status| + 2..] == [];
    ReplyThenRest(s, Status(status[1..]), |status| + 2);
    assert ReadAll([]) == Some([]) && [Status(status[1..])] + [] == [Status(status[1..])];
    assert [ErrorReply(error[1..])] + [Status(status[1..])] == [ErrorReply(error[1..]), Status(status[1..])];
  }

  /** What starts with no known tag cannot be read. */
  lemma StrangeLine(line: Bytes, rest: Bytes)
    requires line != [] && line[0] == '-' && '\r' !in line
    requires rest != [] && rest[0] !in "+-:$"
    ensures ReadAll(line + CRLF + rest) == None
  {
    ErrorLine(line, rest);
    assert ReadReply(rest) == None;
  }

  function RepliesOf(wires: seq<Bytes>): seq<Reply> {
    seq(|wires|, i requires 0 <= i < |wires| => ReplyOf(wires[i]))
  }

  /** A stream of replies is read back reply by reply, none lost, split or merged. */
  lemma {:induction false} StreamReads(wires: seq<Bytes>)
    requires forall i :: 0 <= i < |wires| ==> IsOneReply(wires[i])
    ensures ReadAll(Concat(wires)) == Some(RepliesOf(wires))
    decreases |wires|
  {
    if wires == [] {
      assert RepliesOf(wires) == [];
    } else {
      var w, rest := wires[0], Concat(wires[1..]);
      SameReply(w, rest);
      StreamReads(wires[1..]);
      assert w != [];
      hide ReadReply, ReplyOf, IsOneReply, ReadAll;
      assert (w + rest)[|w|..] == rest;
      ReplyThenRest(w + rest, ReplyOf(w), |w|);
      assert RepliesOf(wires) == [ReplyOf(w)] + RepliesOf(wires[1..]);
    }
  }
}
