/**
 Receiving and sending on a connection: messages are assembled from chunks of bytes of any
 size, and queued messages are written in pieces of any size.
 */
module Net {
  import opened Framing

  function Min(a: nat, b: nat): nat {
    if a < b then a else b
  }

  /** Writes bytes over part of a buffer. */
  function Overwrite(buffer: seq<Byte>, at: nat, bytes: seq<Byte>): (r: seq<Byte>)
    requires at + |bytes| <= |buffer|
    ensures |r| == |buffer| && r[..at] == buffer[..at] && r[at..at + |bytes|] == bytes
  {
    buffer[..at] + bytes + buffer[at + |bytes|..]
  }

  // ----- Receiving -----

  class NetMessage {
    var inData: bool
    var hdrbuf: seq<Byte>
    var header: seq<Byte>        // the header, once complete
    var nMessageSize: nat
    var nHdrPos: nat
    var vRecv: seq<Byte>
    var nDataPos: nat

    constructor ()
      ensures !inData && nHdrPos == 0 && Valid() && HeaderSoFar() == []
    {
      inData, nHdrPos, nDataPos, nMessageSize := false, 0, 0, 0xFFFF_FFFF;
      hdrbuf := seq(HEADER_SIZE, _ => 0);
      header, vRecv := [], [];
    }

    ghost predicate Valid() reads this {
      && |hdrbuf| == HEADER_SIZE && nHdrPos <= HEADER_SIZE
      && (inData ==>
            && nHdrPos == HEADER_SIZE && |header| == HEADER_SIZE && hdrbuf == header
            && nMessageSize == PayloadSize(header) && nDataPos <= |vRecv| <= nMessageSize)
      && (!inData ==> nDataPos == 0 && vRecv == [])
    }

    ghost function HeaderSoFar(): seq<Byte>
      requires Valid()
      reads this
    {
      hdrbuf[..nHdrPos]
    }

    ghost function PayloadSoFar(): seq<Byte>
      requires Valid()
      reads this
    {
      if inData then vRecv[..nDataPos] else []
    }

    predicate Complete() reads this {
      inData && nMessageSize == nDataPos
    }

    /** A complete message has exactly its payload, in a buffer of exactly its size. */
    lemma CompleteIsExact()
      requires Valid() && Complete()
      ensures vRecv == PayloadSoFar() && |vRecv| == PayloadSize(header)
    {
    }

    method ReadHeader(pch: seq<Byte>) returns (handled: int)
      requires Valid() && !inData && nHdrPos < HEADER_SIZE && pch != []
      modifies this
      ensures Valid()
      ensures var n := Min(HEADER_SIZE - old(nHdrPos), |pch|);
              && HeaderSoFar() == old(HeaderSoFar()) + pch[..n]
              && (inData <==> |HeaderSoFar()| == HEADER_SIZE && PayloadSize(HeaderSoFar()) <= MAX_SIZE)
              && (inData ==> header == HeaderSoFar() && nDataPos == 0)
              && handled == if |HeaderSoFar()| == HEADER_SIZE && !inData then -1 else n
    {
      var nRemaining := HEADER_SIZE - nHdrPos;
      var nCopy := Min(nRemaining, |pch|);
      hdrbuf := Overwrite(hdrbuf, nHdrPos, pch[..nCopy]);
      nHdrPos := nHdrPos + nCopy;
      assert hdrbuf[..nHdrPos] == old(hdrbuf[..nHdrPos]) + pch[..nCopy];
      if nHdrPos < HEADER_SIZE {
        return nCopy;
      }
      assert hdrbuf[..nHdrPos] == hdrbuf;
      header, nMessageSize := hdrbuf, PayloadSize(hdrbuf);
      if nMessageSize > MAX_SIZE {
        return -1;
      }
      inData := true;
      handled := nCopy;
    }

    method ReadData(pch: seq<Byte>) returns (handled: nat)
      requires Valid() && inData && nDataPos < nMessageSize && pch != []
      modifies this
      ensures Valid() && inData && header == old(header) && HeaderSoFar() == old(HeaderSoFar())
      ensures handled == Min(PayloadSize(header) - old(nDataPos), |pch|)
      ensures PayloadSoFar() == old(PayloadSoFar()) + pch[..handled]
    {
      var nRemaining := nMessageSize - nDataPos;
      var nCopy := Min(nRemaining, |pch|);
      if |vRecv| < nDataPos + nCopy {
        // The buffer grows ahead of the data, within the announced size.
        var size := Min(nMessageSize, nDataPos + nCopy + 256 * 1024);
        vRecv := vRecv + seq(size - |vRecv|, _ => 0);
      }
      ghost var grown := vRecv;
      assert grown[..nDataPos] == old(vRecv[..nDataPos]);
      vRecv := Overwrite(vRecv, nDataPos, pch[..nCopy]);
      nDataPos := nDataPos + nCopy;
      assert vRecv[..nDataPos] == grown[..old(nDataPos)] + pch[..nCopy];
      handled := nCopy;
    }
  }

  /** What complete messages deliver. */
  ghost function Delivered(ms: seq<NetMessage>): seq<Message>
    reads ms
  {
    seq(|ms|, i requires 0 <= i < |ms| reads ms => Message(ms[i].header, ms[i].vRecv))
  }

  ghost predicate AllComplete(ms: seq<NetMessage>)
    reads ms
  {
    forall i {:trigger ms[i]} | 0 <= i < |ms| :: ms[i].Valid() && ms[i].Complete()
  }

  /** A message that is being read. */
  ghost predicate Partial(m: NetMessage)
    reads m
  {
    && m.Valid() && !m.Complete()
    && (!m.inData ==> m.nHdrPos < HEADER_SIZE)
    && (m.inData ==> !Oversized(m.header))
  }

  /** The state of a reader: complete messages and perhaps one that is being read. */
  ghost function State(done: seq<NetMessage>, m: NetMessage): Parser
    requires m.Valid()
    reads done, m
  {
    Parser(Delivered(done), m.HeaderSoFar(), m.PayloadSoFar(), false)
  }

  class Receiver {
    var vRecvMsg: seq<NetMessage>
    var nRecvBytes: nat

    ghost function Last(): int reads this {
      |vRecvMsg| - 1
    }

    /** Every message but the last one is complete, and no object is listed twice. */
    ghost predicate Valid()
      reads this, vRecvMsg
    {
      && (forall i, j | 0 <= i < j < |vRecvMsg| :: vRecvMsg[i] != vRecvMsg[j])
      && (vRecvMsg != [] ==>
            && AllComplete(vRecvMsg[..Last()])
            && vRecvMsg[Last()].Valid() && (vRecvMsg[Last()].Complete() || Partial(vRecvMsg[Last()])))
    }

    ghost function Abs(): Parser
      requires Valid()
      reads this, vRecvMsg
    {
      if vRecvMsg == [] then START
      else if vRecvMsg[Last()].Complete() then Parser(Delivered(vRecvMsg), [], [], false)
      else State(vRecvMsg[..Last()], vRecvMsg[Last()])
    }

    constructor ()
      ensures Valid() && Abs() == START && nRecvBytes == 0 && vRecvMsg == []
    {
      vRecvMsg, nRecvBytes := [], 0;
    }

    /** Makes sure that the last message is one that is being read. */
    method Current()
      requires Valid()
      modifies this`vRecvMsg
      ensures Valid() && Abs() == old(Abs()) && vRecvMsg != [] && Partial(vRecvMsg[Last()])
      ensures forall i | 0 <= i < |vRecvMsg| :: vRecvMsg[i] in old(vRecvMsg) || fresh(vRecvMsg[i])
    {
      if vRecvMsg == [] || vRecvMsg[|vRecvMsg| - 1].Complete() {
        ghost var before := vRecvMsg;
        if before != [] {
          assert before == before[..|before| - 1] + [before[|before| - 1]];
        }
        var msg := new NetMessage();
        vRecvMsg := vRecvMsg + [msg];
        assert vRecvMsg[..Last()] == before;
      }
    }

    /** One more complete message. */
    lemma DeliveredLast()
      requires vRecvMsg != []
      ensures Delivered(vRecvMsg) == Delivered(vRecvMsg[..Last()]) + [Message(vRecvMsg[Last()].header, vRecvMsg[Last()].vRecv)]
    {
    }

    /** A partial message and the complete ones before it make a sensible state. */
    lemma AbsSensible()
      requires Valid()
      ensures Sensible(Abs()) && !Abs().rejected
    {
    }

    /** The message that is being read takes what it can from a chunk. */
    method Absorb(pch: seq<Byte>) returns (handled: int, rejected: bool)
      requires Valid() && vRecvMsg != [] && Partial(vRecvMsg[Last()]) && pch != []
      modifies vRecvMsg[Last()]
      ensures !rejected ==> 0 < handled <= |pch| && Valid() && Abs() == Feed(old(Abs()), pch[..handled])
      ensures rejected ==> Feed(old(Abs()), pch).rejected && Feed(old(Abs()), pch).done == Delivered(vRecvMsg[..Last()])
    {
      var msg := vRecvMsg[|vRecvMsg| - 1];
      ghost var p := Abs();
      AbsSensible();
      ghost var front := vRecvMsg[..Last()];
      assert msg !in front;
      assert p == State(front, msg);
      if !msg.inData {
        handled := ReadsHeader(msg, pch, p);
      } else {
        handled := msg.ReadData(pch);
        FeedPayload(p, pch[..handled]);
      }
      assert Delivered(front) == old(Delivered(front)) == p.done;
      assert msg.inData ==> msg.HeaderSoFar() == msg.header;
      DeliveredLast();
      if msg.Complete() {
        msg.CompleteIsExact();
      }
      if handled < 0 {
        return handled, true;
      }
      if msg.inData && msg.nMessageSize > MAX_PROTOCOL_MESSAGE_LENGTH {
        return handled, true;
      }
      rejected := false;
    }

    method ReadsHeader(msg: NetMessage, pch: seq<Byte>, ghost p: Parser) returns (handled: int)
      requires Partial(msg) && !msg.inData && pch != []
      requires Sensible(p) && !p.rejected && p.header == msg.HeaderSoFar() && p.payload == []
      modifies msg
      ensures msg.Valid() && (handled < 0 ==> !msg.inData)
      ensures handled >= 0 && !msg.inData ==> Partial(msg)
      ensures handled < 0 || (msg.inData && Oversized(msg.header)) ==>
                Feed(p, pch).rejected && Feed(p, pch).done == p.done
      ensures handled >= 0 && !(msg.inData && Oversized(msg.header)) ==>
                && 0 < handled <= |pch|
                && Feed(p, pch[..handled]) ==
                   if msg.inData then HeaderDone(p.done, msg.header) else Parser(p.done, msg.HeaderSoFar(), [], false)
      ensures msg.inData ==> msg.nDataPos == 0 && msg.header == msg.HeaderSoFar()
    {
      ghost var n := Min(HEADER_SIZE - |p.header|, |pch|);
      FeedHeader(p, pch[..n]);
      FeedConcat(p, pch[..n], pch[n..]);
      assert pch == pch[..n] + pch[n..];
      FeedSensible(Feed(p, pch[..n]), pch[n..]);
      handled := msg.ReadHeader(pch);
    }

    /** One round: the current message, or a new one, takes what it can. */
    method Round(pch: seq<Byte>) returns (handled: int, rejected: bool, complete: bool)
      requires Valid() && pch != []
      modifies this`vRecvMsg, vRecvMsg
      ensures !rejected ==>
                && 0 < handled <= |pch| && Valid() && Sensible(Abs()) && Sensible(old(Abs()))
                && Feed(Abs(), pch[handled..]) == Feed(old(Abs()), pch)
                && old(Abs()).done <= Abs().done && (complete <==> |Abs().done| > |old(Abs()).done|)
      ensures rejected ==>
                && Sensible(old(Abs())) && Feed(old(Abs()), pch).rejected
                && vRecvMsg != [] && Delivered(vRecvMsg[..Last()]) == Feed(old(Abs()), pch).done
      ensures forall i | 0 <= i < |vRecvMsg| :: vRecvMsg[i] in old(vRecvMsg) || fresh(vRecvMsg[i])
    {
      AbsSensible();
      Current();
      ghost var q := Abs();
      assert vRecvMsg[Last()] in vRecvMsg;
      handled, rejected := Absorb(pch);
      complete := false;
      if !rejected {
        FeedConcat(q, pch[..handled], pch[handled..]);
        FeedSensible(q, pch[..handled]);
        assert pch == pch[..handled] + pch[handled..];
        DeliveredLast();
        complete := vRecvMsg[|vRecvMsg| - 1].Complete();
      }
    }

    /** What is left to feed leads to the final state. */
    ghost predicate OnTrack(start: Parser, final: Parser, rest: seq<Byte>, complete: bool)
      reads this, vRecvMsg
    {
      && Valid() && Sensible(Abs()) && Feed(Abs(), rest) == final
      && start.done <= Abs().done && (complete <==> |Abs().done| > |start.done|)
    }

    /** The loop over a chunk. */
    method Consume(pch: seq<Byte>) returns (ok: bool, complete: bool)
      requires Valid() && Sensible(Abs())
      modifies this`vRecvMsg, vRecvMsg
      ensures ok ==> OnTrack(old(Abs()), Feed(old(Abs()), pch), [], complete)
      ensures !ok ==>
                && Feed(old(Abs()), pch).rejected
                && vRecvMsg != [] && Delivered(vRecvMsg[..Last()]) == Feed(old(Abs()), pch).done
      ensures forall i | 0 <= i < |vRecvMsg| :: vRecvMsg[i] in old(vRecvMsg) || fresh(vRecvMsg[i])
    {
      complete := false;
      ghost var p := Abs();
      var rest := pch;
      while rest != []
        invariant OnTrack(p, Feed(p, pch), rest, complete)
        invariant forall i | 0 <= i < |vRecvMsg| :: vRecvMsg[i] in old(vRecvMsg) || fresh(vRecvMsg[i])
        decreases |rest|
      {
        var handled, rejected, finished := Round(rest);
        if rejected {
          return false, complete;
        }
        rest := rest[handled..];
        complete := complete || finished;
      }
      ok := true;
    }

    /** Takes a chunk of any size.  The outcome is that of feeding its bytes, one by one, to the reader. */
    method ReceiveMsgBytes(pch: seq<Byte>) returns (ok: bool, complete: bool)
      requires Valid()
      modifies this, vRecvMsg
      ensures nRecvBytes == old(nRecvBytes) + |pch| && Sensible(old(Abs()))
      ensures ok <==> !Feed(old(Abs()), pch).rejected
      ensures ok ==> Valid() && Abs() == Feed(old(Abs()), pch)
      ensures !ok ==> vRecvMsg != [] && Delivered(vRecvMsg[..Last()]) == Feed(old(Abs()), pch).done
      ensures ok ==> (complete <==> |Abs().done| > |old(Abs()).done|)
      ensures forall i | 0 <= i < |vRecvMsg| :: vRecvMsg[i] in old(vRecvMsg) || fresh(vRecvMsg[i])
    {
      AbsSensible();
      nRecvBytes := nRecvBytes + |pch|;
      ok, complete := Consume(pch);
      if ok {
        AbsSensible();
      }
    }
  }

  ghost function Joined(chunks: seq<seq<Byte>>): seq<Byte> {
    if chunks == [] then [] else Joined(chunks[..|chunks| - 1]) + chunks[|chunks| - 1]
  }

  /** A connection that is read in chunks until one of them is refused. */
  method ReceiveAll(chunks: seq<seq<Byte>>) returns (r: Receiver, ok: bool)
    ensures fresh(r) && (ok <==> !Feed(START, Joined(chunks)).rejected)
    ensures ok ==> r.Valid() && r.Abs() == Feed(START, Joined(chunks)) && r.nRecvBytes == |Joined(chunks)|
    ensures !ok ==> r.vRecvMsg != [] && Delivered(r.vRecvMsg[..r.Last()]) == Feed(START, Joined(chunks)).done
  {
    r := new Receiver();
    for i := 0 to |chunks|
      invariant fresh(r) && r.Valid() && (forall j | 0 <= j < |r.vRecvMsg| :: fresh(r.vRecvMsg[j]))
      invariant r.Abs() == Feed(START, Joined(chunks[..i])) && r.nRecvBytes == |Joined(chunks[..i])|
    {
      var complete;
      r.AbsSensible();
      ok, complete := r.ReceiveMsgBytes(chunks[i]);
      assert chunks[..i + 1][..i] == chunks[..i];
      FeedConcat(START, Joined(chunks[..i]), chunks[i]);
      if !ok {
        RejectedStays(chunks, i + 1);
        return;
      }
    }
    assert chunks[..|chunks|] == chunks;
    r.AbsSensible();
    ok := true;
  }

  lemma {:induction false} RejectedStays(chunks: seq<seq<Byte>>, n: nat)
    requires n <= |chunks| && Feed(START, Joined(chunks[..n])).rejected
    ensures Feed(START, Joined(chunks)) == Feed(START, Joined(chunks[..n]))
    decreases |chunks| - n
  {
    if n == |chunks| {
      assert chunks[..n] == chunks;
    } else {
      assert chunks[..n + 1][..n] == chunks[..n];
      FeedConcat(START, Joined(chunks[..n]), chunks[n]);
      FeedSensible(Feed(START, Joined(chunks[..n])), chunks[n]);
      RejectedStays(chunks, n + 1);
    }
  }

  // ----- Sending -----

  /** All bytes of a queue of buffers. */
  ghost function Bytes(queue: seq<seq<Byte>>): seq<Byte> {
    if queue == [] then [] else queue[0] + Bytes(queue[1..])
  }

  ghost function TotalSize(queue: seq<seq<Byte>>): nat {
    if queue == [] then 0 else |queue[0]| + TotalSize(queue[1..])
  }

  lemma {:induction false} BytesAppend(queue: seq<seq<Byte>>, b: seq<Byte>)
    ensures Bytes(queue + [b]) == Bytes(queue) + b && TotalSize(queue + [b]) == TotalSize(queue) + |b|
  {
    if queue == [] {
      assert queue + [b] == [b] && [b][1..] == [];
    } else {
      assert (queue + [b])[1..] == queue[1..] + [b];
      BytesAppend(queue[1..], b);
    }
  }

  /** Four bytes, least significant first. */
  function LittleEndian(n: nat): (b: seq<Byte>)
    requires n < 0x1_0000_0000
    ensures |b| == 4
  {
    var n1 := n / 0x100;
    var n2 := n1 / 0x100;
    [n % 0x100, n1 % 0x100, n2 % 0x100, n2 / 0x100]
  }

  lemma LittleEndianValue(n: nat, b0: int, b1: int, b2: int, b3: int)
    requires n < 0x1_0000_0000 && [b0, b1, b2, b3] == LittleEndian(n)
    ensures b0 + 0x100 * b1 + 0x1_0000 * b2 + 0x100_0000 * b3 == n
  {
    var b := LittleEndian(n);
    assert b0 == b[0] && b1 == b[1] && b2 == b[2] && b3 == b[3];
  }

  /** The header of a message to be sent. */
  function Header(messageStart: seq<Byte>, command: seq<Byte>, size: nat, checksum: seq<Byte>): (h: seq<Byte>)
    requires |messageStart| == 4 && |command| <= 12 && |checksum| == 4 && size < 0x1_0000_0000
    ensures |h| == HEADER_SIZE
  {
    messageStart + (command + seq(12 - |command|, _ => 0)) + LittleEndian(size) + checksum
  }

  lemma HeaderSize(messageStart: seq<Byte>, command: seq<Byte>, size: nat, checksum: seq<Byte>)
    requires |messageStart| == 4 && |command| <= 12 && |checksum| == 4 && size < 0x1_0000_0000
    ensures PayloadSize(Header(messageStart, command, size, checksum)) == size
  {
    var h, b := Header(messageStart, command, size, checksum), LittleEndian(size);
    assert h[16] == b[0] && h[17] == b[1] && h[18] == b[2] && h[19] == b[3];
    assert b == [b[0], b[1], b[2], b[3]];
    LittleEndianValue(size, b[0], b[1], b[2], b[3]);
  }

  /** How many bytes a socket takes from a queue until it takes less than it is offered. */
  ghost function Accepted(queue: seq<seq<Byte>>, offset: nat, send: (nat, nat) -> int, k: nat): int
    requires queue != [] ==> offset <= |queue[0]|
    decreases |queue|
  {
    if queue == [] then 0
    else
      var n := send(k, |queue[0]| - offset);
      if n <= 0 then 0
      else if n < |queue[0]| - offset then n
      else n + Accepted(queue[1..], 0, send, k + 1)
  }

  class Sender {
    const nSendBufferMaxSize: nat
    var vSendMsg: seq<seq<Byte>>
    var nSendOffset: nat
    var nSendSize: int
    var fPauseSend: bool
    var connected: bool
    var sent: seq<Byte>             // everything handed to the socket
    ghost var queued: seq<Byte>     // everything ever queued

    /** What is handed over and what remains are together what was queued, in order. */
    ghost predicate Valid() reads this {
      Owing(0)
    }

    /** The same, while buffers of some size are still to be appended. */
    ghost predicate Owing(more: int) reads this {
      && (forall i | 0 <= i < |vSendMsg| :: vSendMsg[i] != [])
      && (if vSendMsg == [] then nSendOffset == 0 else nSendOffset < |vSendMsg[0]|)
      && nSendOffset <= |Bytes(vSendMsg)| && sent + Bytes(vSendMsg)[nSendOffset..] == queued
      && nSendSize == TotalSize(vSendMsg) + more
    }

    constructor (nSendBufferMaxSize: nat)
      ensures Valid() && sent == queued == []
    {
      this.nSendBufferMaxSize := nSendBufferMaxSize;
      vSendMsg, nSendOffset, nSendSize, fPauseSend, connected := [], 0, 0, false, true;
      sent, queued := [], [];
    }

    /** Where the loop over the queue stands: what remains is the rest of the queue from its offset on. */
    ghost predicate Sending(it: nat) reads this {
      && it <= |vSendMsg| && (forall i | 0 <= i < |vSendMsg| :: vSendMsg[i] != [])
      && (if it == |vSendMsg| then nSendOffset == 0 else nSendOffset < |vSendMsg[it]|)
      && nSendOffset <= |Bytes(vSendMsg[it..])|
      && sent + Bytes(vSendMsg[it..])[nSendOffset..] == queued
      && nSendSize == TotalSize(vSendMsg[it..])
    }

    /** A socket takes part of the buffer at the front. */
    method Took(it: nat, nBytes: nat)
      requires Sending(it) && it < |vSendMsg| && 0 < nBytes <= |vSendMsg[it]| - nSendOffset
      modifies this`sent, this`nSendOffset, this`nSendSize, this`fPauseSend
      ensures sent == old(sent) + vSendMsg[it][old(nSendOffset)..old(nSendOffset) + nBytes]
      ensures nBytes == |vSendMsg[it]| - old(nSendOffset) ==> Sending(it + 1) && nSendOffset == 0
      ensures nBytes < |vSendMsg[it]| - old(nSendOffset) ==> Sending(it)
      ensures nBytes == |vSendMsg[it]| - old(nSendOffset) ==> fPauseSend == (nSendSize > nSendBufferMaxSize)
    {
      var data := vSendMsg[it];
      ghost var rest := Bytes(vSendMsg[it + 1..]);
      FrontBuffer(it, nBytes, rest);
      sent := sent + data[nSendOffset..nSendOffset + nBytes];
      nSendOffset := nSendOffset + nBytes;
      if nSendOffset == |data| {
        nSendOffset := 0;
        nSendSize := nSendSize - |data|;
        fPauseSend := nSendSize > nSendBufferMaxSize;
        assert rest[0..] == rest;
      }
    }

    lemma FrontBuffer(it: nat, nBytes: nat, rest: seq<Byte>)
      requires Sending(it) && it < |vSendMsg| && nBytes <= |vSendMsg[it]| - nSendOffset && rest == Bytes(vSendMsg[it + 1..])
      ensures var data, to := vSendMsg[it], nSendOffset + nBytes;
              && Bytes(vSendMsg[it..]) == data + rest && TotalSize(vSendMsg[it..]) == |data| + TotalSize(vSendMsg[it + 1..])
              && sent + data[nSendOffset..to] + (data + rest)[to..] == queued
              && (to == |data| ==> (data + rest)[to..] == rest)
    {
      assert vSendMsg[it..][1..] == vSendMsg[it + 1..];
      var data, to := vSendMsg[it], nSendOffset + nBytes;
      assert (data + rest)[nSendOffset..] == data[nSendOffset..to] + (data + rest)[to..];
    }

    /** The loop over the queue; buffers that are written in full are left for the caller to erase. */
    method SendLoop(send: (nat, nat) -> int, fatal: bool) returns (it: nat, nSentSize: nat)
      requires Valid() && Sending(0) && forall k, n :: send(k, n) <= n
      modifies this`sent, this`nSendOffset, this`nSendSize, this`fPauseSend, this`connected
      ensures Sending(it) && old(sent) <= sent && |sent| == |old(sent)| + nSentSize
      ensures nSentSize == if old(connected) then Accepted(vSendMsg, old(nSendOffset), send, 0) else 0
    {
      nSentSize := 0;
      it := 0;
      assert vSendMsg[0..] == vSendMsg;
      ghost var whole := if connected then Accepted(vSendMsg, nSendOffset, send, 0) else 0;
      while it < |vSendMsg|
        invariant Sending(it) && connected == old(connected)
        invariant old(sent) <= sent && |sent| == |old(sent)| + nSentSize
        invariant whole == nSentSize + if connected then Accepted(vSendMsg[it..], nSendOffset, send, it) else 0
        decreases |vSendMsg| - it
      {
        if !connected {
          break;
        }
        var n, more := SendOne(it, send, fatal);
        nSentSize := nSentSize + n;
        if !more {
          break;
        }
        it := it + 1;
      }
    }

    /** One call of the socket; the loop goes on only if it took all of the buffer. */
    method SendOne(it: nat, send: (nat, nat) -> int, fatal: bool) returns (n: nat, more: bool)
      requires it < |vSendMsg| && Sending(it) && connected && forall k, n :: send(k, n) <= n
      modifies this`sent, this`nSendOffset, this`nSendSize, this`fPauseSend, this`connected
      ensures Sending(if more then it + 1 else it) && old(sent) <= sent && |sent| == |old(sent)| + n
      ensures more ==> connected
      ensures Accepted(vSendMsg[it..], old(nSendOffset), send, it) == n + if more then Accepted(vSendMsg[it + 1..], nSendOffset, send, it + 1) else 0
    {
      var data := vSendMsg[it];
      assert |data| > nSendOffset;
      var nBytes := send(it, |data| - nSendOffset);
      assert vSendMsg[it..][1..] == vSendMsg[it + 1..];
      n, more := 0, false;
      if nBytes > 0 {
        more := nSendOffset + nBytes == |data|;
        n := nBytes;
        Took(it, nBytes);
      } else if nBytes < 0 && fatal {
        connected := false;
      }
    }

    /** Writes as much of the queue as the socket takes. */
    method SocketSendData(send: (nat, nat) -> int, fatal: bool) returns (nSentSize: nat)
      requires Valid() && forall k, n :: send(k, n) <= n
      modifies this
      ensures Valid() && queued == old(queued)
      ensures old(sent) <= sent && |sent| == |old(sent)| + nSentSize
      ensures nSentSize == if old(connected) then Accepted(old(vSendMsg), old(nSendOffset), send, 0) else 0
    {
      assert vSendMsg[0..] == vSendMsg;
      var it;
      it, nSentSize := SendLoop(send, fatal);
      if it == |vSendMsg| {
        assert vSendMsg[it..] == [];
        assert nSendOffset == 0 && nSendSize == 0;
      }
      vSendMsg := vSendMsg[it..];
    }

    /** Queues a header and, unless it is empty, a payload; if nothing was waiting, writes at once. */
    method PushMessage(messageStart: seq<Byte>, command: seq<Byte>, data: seq<Byte>, checksum: seq<Byte>,
                       send: (nat, nat) -> int, fatal: bool)
      returns (nBytesSent: nat)
      requires Valid() && forall k, n :: send(k, n) <= n
      requires |messageStart| == 4 && |command| <= 12 && |checksum| == 4 && |data| < 0x1_0000_0000
      modifies this
      ensures Valid() && queued == old(queued) + Header(messageStart, command, |data|, checksum) + data
      ensures old(sent) <= sent && |sent| == |old(sent)| + nBytesSent
      ensures old(vSendMsg) != [] ==> nBytesSent == 0
    {
      var serializedHeader := Header(messageStart, command, |data|, checksum);
      var optimisticSend := vSendMsg == [];
      nBytesSent := 0;
      nSendSize := nSendSize + |data| + HEADER_SIZE;
      if nSendSize > nSendBufferMaxSize {
        fPauseSend := true;
      }
      Enqueue(serializedHeader, |data| + HEADER_SIZE);
      if |data| != 0 {
        Enqueue(data, |data|);
      } else {
        assert queued + data == queued;
      }
      if optimisticSend {
        nBytesSent := SocketSendData(send, fatal);
      }
    }

    /** Appends a buffer whose size has been accounted for. */
    method Enqueue(b: seq<Byte>, ghost more: int)
      requires Owing(more) && b != []
      modifies this`vSendMsg, this`queued
      ensures Owing(more - |b|) && vSendMsg == old(vSendMsg) + [b] && queued == old(queued) + b
    {
      BytesAppend(vSendMsg, b);
      assert (Bytes(vSendMsg) + b)[nSendOffset..] == Bytes(vSendMsg)[nSendOffset..] + b;
      vSendMsg := vSendMsg + [b];
      queued := queued + b;
    }
  }

  // ----- Both ends of a connection -----

  datatype Outgoing = Outgoing(command: seq<Byte>, data: seq<Byte>, checksum: seq<Byte>)

  ghost predicate Sendable(o: Outgoing) {
    |o.command| <= 12 && |o.checksum| == 4 && |o.data| <= MAX_PROTOCOL_MESSAGE_LENGTH
  }

  /** What is to arrive. */
  ghost function Arriving(messageStart: seq<Byte>, out: seq<Outgoing>): seq<Message>
    requires |messageStart| == 4 && forall i | 0 <= i < |out| :: Sendable(out[i])
  {
    seq(|out|, i requires 0 <= i < |out| && Sendable(out[i]) =>
      Message(Header(messageStart, out[i].command, |out[i].data|, out[i].checksum), out[i].data))
  }

  lemma {:induction false} WireAppend(ms: seq<Message>, m: Message)
    ensures Wire(ms + [m]) == Wire(ms) + m.header + m.payload
  {
    if ms == [] {
      assert ms + [m] == [m] && [m][1..] == [];
    } else {
      assert (ms + [m])[1..] == ms[1..] + [m];
      WireAppend(ms[1..], m);
    }
  }

  /** What a sender does, in any order and as often as one likes. */
  datatype Act = Push(o: Outgoing) | Write

  /** The messages pushed by the first n acts. */
  ghost function Pushed(acts: seq<Act>, n: nat): seq<Outgoing>
    requires n <= |acts|
  {
    if n == 0 then [] else Pushed(acts, n - 1) + if acts[n - 1].Push? then [acts[n - 1].o] else []
  }

  ghost predicate AllSendable(acts: seq<Act>) {
    forall i | 0 <= i < |acts| && acts[i].Push? :: Sendable(acts[i].o)
  }

  lemma {:induction false} PushedSendable(acts: seq<Act>, n: nat)
    requires n <= |acts| && AllSendable(acts)
    ensures forall i | 0 <= i < |Pushed(acts, n)| :: Sendable(Pushed(acts, n)[i])
  {
    if n > 0 {
      PushedSendable(acts, n - 1);
    }
  }

  /** The stream of what was pushed so far. */
  ghost function Queue(messageStart: seq<Byte>, acts: seq<Act>, n: nat): seq<Byte>
    requires |messageStart| == 4 && n <= |acts| && AllSendable(acts)
  {
    PushedSendable(acts, n);
    Wire(Arriving(messageStart, Pushed(acts, n)))
  }

  /** What one act adds to the stream. */
  ghost function Added(messageStart: seq<Byte>, act: Act): seq<Byte>
    requires |messageStart| == 4 && (act.Push? ==> Sendable(act.o))
  {
    if act.Push? then Header(messageStart, act.o.command, |act.o.data|, act.o.checksum) + act.o.data else []
  }

  lemma QueueNext(messageStart: seq<Byte>, acts: seq<Act>, n: nat)
    requires |messageStart| == 4 && n < |acts| && AllSendable(acts)
    ensures Queue(messageStart, acts, n + 1) == Queue(messageStart, acts, n) + Added(messageStart, acts[n])
  {
    PushedSendable(acts, n);
    PushedSendable(acts, n + 1);
    var before, after := Arriving(messageStart, Pushed(acts, n)), Arriving(messageStart, Pushed(acts, n + 1));
    if acts[n].Push? {
      var o := acts[n].o;
      var m := Message(Header(messageStart, o.command, |o.data|, o.checksum), o.data);
      assert after == before + [m];
      WireAppend(before, m);
    } else {
      assert after == before;
    }
  }

  ghost predicate TakesAtMost(sends: nat -> (nat, nat) -> int) {
    forall call, k, n {:trigger sends(call)(k, n)} :: sends(call)(k, n) <= n
  }

  method Perform(sender: Sender, messageStart: seq<Byte>, act: Act, send: (nat, nat) -> int, fatal: bool)
    requires |messageStart| == 4 && (act.Push? ==> Sendable(act.o)) && sender.Valid() && forall k, n :: send(k, n) <= n
    modifies sender
    ensures sender.Valid() && sender.queued == old(sender.queued) + Added(messageStart, act)
    ensures old(sender.sent) <= sender.sent
  {
    var n;
    match act {
      case Push(o) =>
        n := sender.PushMessage(messageStart, o.command, o.data, o.checksum, send, fatal);
        assert sender.queued == old(sender.queued) + Added(messageStart, act);
      case Write =>
        n := sender.SocketSendData(send, fatal);
    }
  }

  /** Pushes messages and writes to the socket in any order.  In every call the socket takes what it likes of each
      buffer and may fail for good. */
  method SendAll(messageStart: seq<Byte>, acts: seq<Act>, sends: nat -> (nat, nat) -> int, fatal: nat -> bool, maxSize: nat)
    returns (sender: Sender)
    requires |messageStart| == 4 && AllSendable(acts) && TakesAtMost(sends)
    ensures fresh(sender) && sender.Valid() && sender.queued == Queue(messageStart, acts, |acts|)
    ensures sender.sent <= sender.queued && (sender.vSendMsg == [] ==> sender.sent == sender.queued)
  {
    sender := new Sender(maxSize);
    for i := 0 to |acts|
      invariant fresh(sender) && sender.Valid() && sender.queued == Queue(messageStart, acts, i)
    {
      QueueNext(messageStart, acts, i);
      assert forall k, n :: sends(i)(k, n) <= n;
      Perform(sender, messageStart, acts[i], sends(i), fatal(i));
    }
  }

  /**
   From one end to the other: however the sender's socket cuts the stream in each call and however the
   receiver's chunks cut what was written, the receiver has the first of the messages, intact and
   in order, and refuses nothing; once everything is written, it has them all.
   */
  method Transfer(messageStart: seq<Byte>, acts: seq<Act>, sends: nat -> (nat, nat) -> int, fatal: nat -> bool, maxSize: nat, cut: nat -> nat)
    returns (sender: Sender, receiver: Receiver, ok: bool)
    requires |messageStart| == 4 && AllSendable(acts) && TakesAtMost(sends)
    ensures forall i | 0 <= i < |Pushed(acts, |acts|)| :: Sendable(Pushed(acts, |acts|)[i])
    ensures ok && receiver.Valid() && receiver.Abs().done <= Arriving(messageStart, Pushed(acts, |acts|))
    ensures sender.vSendMsg == [] ==> receiver.Abs().done == Arriving(messageStart, Pushed(acts, |acts|))
  {
    sender := SendAll(messageStart, acts, sends, fatal, maxSize);
    var chunks := Cut(sender.sent, cut);
    PushedSendable(acts, |acts|);
    ghost var out := Pushed(acts, |acts|);
    ghost var all := Arriving(messageStart, out);
    forall i | 0 <= i < |all| ensures WellFormed(all[i]) {
      HeaderSize(messageStart, out[i].command, |out[i].data|, out[i].checksum);
    }
    PrefixReads(all, sender.sent);
    receiver, ok := ReceiveAll(chunks);
  }

  /** Cuts a stream into chunks of arbitrary sizes. */
  method Cut(s: seq<Byte>, size: nat -> nat) returns (chunks: seq<seq<Byte>>)
    ensures Joined(chunks) == s
  {
    chunks := [];
    var pos := 0;
    while pos < |s|
      invariant 0 <= pos <= |s| && Joined(chunks) == s[..pos]
    {
      var n := Min(1 + size(|chunks|), |s| - pos);
      assert (chunks + [s[pos..pos + n]])[..|chunks|] == chunks;
      chunks := chunks + [s[pos..pos + n]];
      pos := pos + n;
    }
    assert s[..pos] == s;
  }
}
