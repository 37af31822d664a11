/** The operating system as the server sees it: calls whose outcomes nothing predicts. */
module Sockets {
  import opened ByteStrings

  datatype SendResult = Sent(count: nat) | SendWouldBlock | SendInterrupted | SendBroken

  datatype RecvResult = Received(bytes: Bytes) | EndOfStream | RecvWouldBlock | RecvInterrupted | RecvBroken

  /** Which events a descriptor is watched for. */
  datatype Interest = ReadOnly | ReadWrite

  /** `sends` and `recvs` are the outcomes of calls to come; a call beyond them would block. */
  class Kernel {
    var sends: seq<SendResult>
    var recvs: seq<RecvResult>
    /** The bytes each connection has taken for delivery. */
    var wire: map<int, Bytes>
    var interest: map<int, Interest>
    /** Per connection, the bytes handed over by `Recv`. */
    ghost var delivered: map<int, Bytes>
    /** How often a connection was reported broken or at its end. */
    ghost var failures: nat
    /** Every outcome reported so far. */
    ghost var sendLog: seq<SendResult>
    ghost var recvLog: seq<RecvResult>

    constructor (sends: seq<SendResult>, recvs: seq<RecvResult>)
      ensures this.sends == sends && this.recvs == recvs && wire == map[] && interest == map[]
    {
      this.sends, this.recvs, wire, interest := sends, recvs, map[], map[];
      delivered, failures, sendLog, recvLog := map[], 0, [], [];
    }

    method Send(fd: int, bytes: Bytes) returns (r: SendResult)
      requires bytes != [] && fd in wire
      modifies this`sends, this`wire, this`failures, this`sendLog
      ensures sendLog == old(sendLog) + [r]
      ensures failures == old(failures) + if r.SendBroken? then 1 else 0
      ensures r.Sent? ==> 0 < r.count <= |bytes| && wire == old(wire)[fd := old(wire)[fd] + bytes[..r.count]]
      ensures !r.Sent? ==> wire == old(wire)
      ensures |sends| <= |old(sends)| && (r != SendWouldBlock ==> |sends| < |old(sends)|)
    {
      if sends == [] {
        sendLog := sendLog + [SendWouldBlock];
        return SendWouldBlock;
      }
      r := sends[0];
      sends := sends[1..];
      if r == Sent(0) {
        r := SendBroken;
      }
      if r.Sent? {
        r := Sent(if r.count < |bytes| then r.count else |bytes|);
        wire := wire[fd := wire[fd] + bytes[..r.count]];
      }
      failures, sendLog := failures + (if r.SendBroken? then 1 else 0), sendLog + [r];
    }

    method Recv(fd: int) returns (r: RecvResult)
      requires fd in delivered
      modifies this`recvs, this`delivered, this`failures, this`recvLog
      ensures recvLog == old(recvLog) + [r]
      ensures r.Received? ==> r.bytes != [] && delivered == old(delivered)[fd := old(delivered)[fd] + r.bytes]
      ensures !r.Received? ==> delivered == old(delivered)
      ensures failures == old(failures) + if r.EndOfStream? || r.RecvBroken? then 1 else 0
      ensures |recvs| <= |old(recvs)| && (r != RecvWouldBlock ==> |recvs| < |old(recvs)|)
    {
      if recvs == [] {
        recvLog := recvLog + [RecvWouldBlock];
        return RecvWouldBlock;
      }
      r := recvs[0];
      recvs := recvs[1..];
      if r == Received([]) {
        r := EndOfStream;
      }
      if r.Received? {
        delivered := delivered[fd := delivered[fd] + r.bytes];
      }
      failures, recvLog := failures + (if r.EndOfStream? || r.RecvBroken? then 1 else 0), recvLog + [r];
    }

    /** A new connection. */
    method Accept(fd: int)
      modifies this`wire, this`interest, this`delivered
      ensures wire == old(wire)[fd := []] && interest == old(interest)[fd := ReadOnly]
      ensures delivered == old(delivered)[fd := []]
    {
      wire := wire[fd := []];
      delivered := delivered[fd := []];
      interest := interest[fd := ReadOnly];
    }

    method Watch(fd: int, interest: Interest)
      modifies this`interest
      ensures this.interest == old(this.interest)[fd := interest]
    {
      this.interest := this.interest[fd := interest];
    }

    method Close(fd: int)
      modifies this`interest
      ensures interest == old(interest) - {fd}
    {
      interest := interest - {fd};
    }
  }
}

/** Responses partly sent. */
module Outbox {
  import opened ByteStrings
  import opened Replies

  const MAX_QUEUED: nat := 1024

  datatype OutChunk = OutChunk(
    head: Bytes, headSent: nat, blob: Option<Bytes>, blobSent: nat, tail: Bytes, tailSent: nat)

  function BlobOf(c: OutChunk): Bytes { if c.blob.Some? then c.blob.value else [] }

  predicate ValidChunk(c: OutChunk) {
    c.headSent <= |c.head| && c.blobSent <= |BlobOf(c)| && c.tailSent <= |c.tail|
  }

  predicate ValidQueue(q: seq<OutChunk>) { forall i :: 0 <= i < |q| ==> ValidChunk(q[i]) }

  /** The bytes of a chunk still to be sent. */
  function Unsent(c: OutChunk): Bytes
    requires ValidChunk(c)
  {
    c.head[c.headSent..] + BlobOf(c)[c.blobSent..] + c.tail[c.tailSent..]
  }

  function Pending(q: seq<OutChunk>): Bytes
    requires ValidQueue(q)
  {
    if q == [] then [] else Unsent(q[0]) + Pending(q[1..])
  }

  function NewChunk(r: Response): OutChunk { OutChunk(r.head, 0, r.blob, 0, r.tail, 0) }

  lemma {:induction false} PendingSnoc(q: seq<OutChunk>, r: Response)
    requires ValidQueue(q)
    ensures ValidQueue(q + [NewChunk(r)]) && Pending(q + [NewChunk(r)]) == Pending(q) + Wire(r)
    decreases |q|
  {
    var c := NewChunk(r);
    if q == [] {
      assert [] + [c] == [c] && [c][1..] == [];
      assert Unsent(c) == Wire(r);
    } else {
      hide Wire, Unsent;
      assert (q + [c])[0] == q[0] && (q + [c])[1..] == q[1..] + [c];
      PendingSnoc(q[1..], r);
    }
  }

  lemma PendingRest(q: seq<OutChunk>)
    requires ValidQueue(q) && q != [] && Unsent(q[0]) == []
    ensures ValidQueue(q[1..]) && Pending(q) == Pending(q[1..])
  {
    hide Unsent, ValidChunk;
  }

  /** The part of a chunk to send from next. */
  datatype Part = Head | Blob | Tail | Done

  function NextPart(c: OutChunk): Part {
    if c.headSent < |c.head| then Head
    else if c.blobSent < |BlobOf(c)| then Blob
    else if c.tailSent < |c.tail| then Tail
    else Done
  }

  /** The bytes of the next part not yet sent. */
  function PartBytes(c: OutChunk): Bytes
    requires ValidChunk(c) && NextPart(c) != Done
  {
    match NextPart(c)
    case Head => c.head[c.headSent..]
    case Blob => c.blob.value[c.blobSent..]
    case Tail => c.tail[c.tailSent..]
  }

  function Advance(c: OutChunk, sent: nat): OutChunk {
    match NextPart(c)
    case Head => c.(headSent := c.headSent + sent)
    case Blob => c.(blobSent := c.blobSent + sent)
    case _ => c.(tailSent := c.tailSent + sent)
  }

  /** Sending some of the next part takes exactly those bytes off the front of what is unsent. */
  lemma AdvanceSends(c: OutChunk, sent: nat)
    requires ValidChunk(c) && NextPart(c) != Done && 0 < sent <= |PartBytes(c)|
    ensures ValidChunk(Advance(c, sent)) && Unsent(c) == PartBytes(c)[..sent] + Unsent(Advance(c, sent))
  {
    hide Unsent;
    match NextPart(c)
    case Head => HeadAdvances(c, sent);
    case Blob => BlobAdvances(c, sent);
    case Tail => TailAdvances(c, sent);
  }

  lemma HeadAdvances(c: OutChunk, sent: nat)
    requires ValidChunk(c) && c.headSent + sent <= |c.head|
    ensures Unsent(c) == c.head[c.headSent..][..sent] + Unsent(c.(headSent := c.headSent + sent))
  {
    CutFront(c.head, c.headSent, sent, BlobOf(c)[c.blobSent..], c.tail[c.tailSent..]);
  }

  lemma BlobAdvances(c: OutChunk, sent: nat)
    requires ValidChunk(c) && c.headSent == |c.head| && c.blob.Some? && c.blobSent + sent <= |c.blob.value|
    ensures Unsent(c) == c.blob.value[c.blobSent..][..sent] + Unsent(c.(blobSent := c.blobSent + sent))
  {
    assert c.head[c.headSent..] == [];
    CutFront(c.blob.value, c.blobSent, sent, [], c.tail[c.tailSent..]);
  }

  lemma TailAdvances(c: OutChunk, sent: nat)
    requires ValidChunk(c) && c.headSent == |c.head| && c.blobSent == |BlobOf(c)| && c.tailSent + sent <= |c.tail|
    ensures Unsent(c) == c.tail[c.tailSent..][..sent] + Unsent(c.(tailSent := c.tailSent + sent))
  {
    OnlyTail(c);
    OnlyTail(c.(tailSent := c.tailSent + sent));
    hide Unsent;
    assert c.tail[c.tailSent..] == c.tail[c.tailSent..][..sent] + c.tail[c.tailSent + sent..];
  }

  lemma OnlyTail(c: OutChunk)
    requires ValidChunk(c) && c.headSent == |c.head| && c.blobSent == |BlobOf(c)|
    ensures Unsent(c) == c.tail[c.tailSent..]
  {
    assert c.head[c.headSent..] == [] && BlobOf(c)[c.blobSent..] == [];
  }

  lemma CutFront(part: Bytes, from: nat, n: nat, then0: Bytes, then1: Bytes)
    requires from + n <= |part|
    ensures part[from..] + then0 + then1 == part[from..][..n] + (part[from + n..] + then0 + then1)
    ensures then0 == [] ==> [] + part[from..] + then1 == part[from..][..n] + ([] + part[from + n..] + then1)
  {
    assert part[from..] == part[from..][..n] + part[from + n..];
  }

  lemma SomeBytes(c: OutChunk)
    requires ValidChunk(c) && NextPart(c) != Done
    ensures PartBytes(c) != []
  {
  }

  lemma DoneIsSent(c: OutChunk)
    requires ValidChunk(c)
    ensures NextPart(c) == Done <==> Unsent(c) == []
  {
  }
}
