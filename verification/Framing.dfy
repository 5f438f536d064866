/**
 Message framing on a byte stream: what a stream of bytes means, byte by byte and as a whole,
 and that a stream of well-formed messages means exactly those messages.
 */
module Framing {

  const HEADER_SIZE: nat := 24
  const MESSAGE_SIZE_OFFSET: nat := 16
  const MAX_SIZE: nat := 0x0200_0000
  const MAX_PROTOCOL_MESSAGE_LENGTH: nat := 4 * 1000 * 1000

  type Byte = x: int | 0 <= x < 256

  datatype Message = Message(header: seq<Byte>, payload: seq<Byte>)

  /** The length field of a header, least significant byte first. */
  function PayloadSize(header: seq<Byte>): nat
    requires |header| == HEADER_SIZE
  {
    var b0: int, b1: int := header[MESSAGE_SIZE_OFFSET], header[MESSAGE_SIZE_OFFSET + 1];
    var b2: int, b3: int := header[MESSAGE_SIZE_OFFSET + 2], header[MESSAGE_SIZE_OFFSET + 3];
    b0 + 0x100 * b1 + 0x1_0000 * b2 + 0x100_0000 * b3
  }

  predicate Oversized(header: seq<Byte>)
    requires |header| == HEADER_SIZE
  {
    PayloadSize(header) > MAX_SIZE || PayloadSize(header) > MAX_PROTOCOL_MESSAGE_LENGTH
  }

  // ----- Byte by byte -----

  /** Messages completed so far, and the parts of the current one. */
  datatype Parser = Parser(done: seq<Message>, header: seq<Byte>, payload: seq<Byte>, rejected: bool)

  const START: Parser := Parser([], [], [], false)

  ghost predicate Sensible(p: Parser) {
    if p.rejected then |p.header| == HEADER_SIZE && Oversized(p.header) && p.payload == []
    else if |p.header| < HEADER_SIZE then p.payload == []
    else |p.header| == HEADER_SIZE && !Oversized(p.header) && |p.payload| < PayloadSize(p.header)
  }

  /** What happens once a header is there in full. */
  function HeaderDone(done: seq<Message>, header: seq<Byte>): Parser
    requires |header| == HEADER_SIZE
  {
    if Oversized(header) then Parser(done, header, [], true)
    else PayloadSoFar(done, header, [])
  }

  function PayloadSoFar(done: seq<Message>, header: seq<Byte>, payload: seq<Byte>): Parser
    requires |header| == HEADER_SIZE
  {
    if |payload| == PayloadSize(header) then Parser(done + [Message(header, payload)], [], [], false)
    else Parser(done, header, payload, false)
  }

  function Step(p: Parser, b: Byte): Parser
    requires Sensible(p)
  {
    if p.rejected then p
    else if |p.header| < HEADER_SIZE - 1 then p.(header := p.header + [b])
    else if |p.header| == HEADER_SIZE - 1 then HeaderDone(p.done, p.header + [b])
    else PayloadSoFar(p.done, p.header, p.payload + [b])
  }

  lemma StepSensible(p: Parser, b: Byte)
    requires Sensible(p)
    ensures Sensible(Step(p, b)) && p.done <= Step(p, b).done
  {
  }

  function Feed(p: Parser, s: seq<Byte>): Parser
    requires Sensible(p)
    decreases |s|
  {
    if s == [] then p
    else
      StepSensible(p, s[0]);
      Feed(Step(p, s[0]), s[1..])
  }

  lemma {:induction false} FeedSensible(p: Parser, s: seq<Byte>)
    requires Sensible(p)
    ensures Sensible(Feed(p, s)) && p.done <= Feed(p, s).done
    ensures p.rejected ==> Feed(p, s) == p
    decreases |s|
  {
    if s != [] {
      StepSensible(p, s[0]);
      FeedSensible(Step(p, s[0]), s[1..]);
    }
  }

  /** However a stream is cut, the meaning is the same. */
  lemma {:induction false} FeedConcat(p: Parser, a: seq<Byte>, b: seq<Byte>)
    requires Sensible(p)
    ensures Sensible(Feed(p, a)) && Feed(p, a + b) == Feed(Feed(p, a), b)
    decreases |a|
  {
    if a == [] {
      assert a + b == b;
    } else {
      StepSensible(p, a[0]);
      FeedConcat(Step(p, a[0]), a[1..], b);
      assert (a + b)[1..] == a[1..] + b;
    }
  }

  /** Several bytes of a header at once. */
  lemma {:induction false} FeedHeader(p: Parser, s: seq<Byte>)
    requires Sensible(p) && !p.rejected && |p.header| < HEADER_SIZE && |p.header| + |s| <= HEADER_SIZE
    ensures |p.header| + |s| < HEADER_SIZE ==> Feed(p, s) == p.(header := p.header + s)
    ensures |p.header| + |s| == HEADER_SIZE ==> Feed(p, s) == HeaderDone(p.done, p.header + s)
    decreases |s|
  {
    if s == [] {
      assert p.header + s == p.header;
    } else {
      var q := Step(p, s[0]);
      assert p.header + s == (p.header + [s[0]]) + s[1..];
      if |p.header| < HEADER_SIZE - 1 {
        FeedHeader(q, s[1..]);
      } else {
        assert s == [s[0]];
      }
    }
  }

  /** Several bytes of a payload at once. */
  lemma {:induction false} FeedPayload(p: Parser, s: seq<Byte>)
    requires Sensible(p) && !p.rejected && |p.header| == HEADER_SIZE && |p.payload| + |s| <= PayloadSize(p.header)
    ensures Feed(p, s) == if s == [] then p else PayloadSoFar(p.done, p.header, p.payload + s)
    decreases |s|
  {
    if s != [] {
      var q := Step(p, s[0]);
      assert p.payload + s == (p.payload + [s[0]]) + s[1..];
      if |s| > 1 {
        FeedPayload(q, s[1..]);
      } else {
        assert s == [s[0]];
      }
    }
  }

  // ----- As a whole -----

  /** The meaning of a whole stream, by cutting messages off its front. */
  function Whole(done: seq<Message>, s: seq<Byte>): Parser
    decreases |s|
  {
    if |s| < HEADER_SIZE then Parser(done, s, [], false)
    else
      var header, rest := s[..HEADER_SIZE], s[HEADER_SIZE..];
      if Oversized(header) then Parser(done, header, [], true)
      else if |rest| < PayloadSize(header) then Parser(done, header, rest, false)
      else Whole(done + [Message(header, rest[..PayloadSize(header)])], rest[PayloadSize(header)..])
  }

  /** Reading byte by byte finds the same messages as cutting the whole stream. */
  lemma {:induction false} FeedIsWhole(done: seq<Message>, s: seq<Byte>)
    ensures Feed(Parser(done, [], [], false), s) == Whole(done, s)
    decreases |s|
  {
    var p := Parser(done, [], [], false);
    if |s| < HEADER_SIZE {
      FeedHeader(p, s);
      assert [] + s == s;
    } else {
      var header, rest := s[..HEADER_SIZE], s[HEADER_SIZE..];
      assert s == header + rest && [] + header == header;
      FeedHeader(p, header);
      FeedConcat(p, header, rest);
      if Oversized(header) {
        FeedSensible(HeaderDone(done, header), rest);
      } else {
        AfterHeader(done, header, rest);
        if |rest| >= PayloadSize(header) {
          FeedIsWhole(done + [Message(header, rest[..PayloadSize(header)])], rest[PayloadSize(header)..]);
        }
      }
    }
  }

  lemma AfterHeader(done: seq<Message>, header: seq<Byte>, rest: seq<Byte>)
    requires |header| == HEADER_SIZE && !Oversized(header)
    ensures Sensible(HeaderDone(done, header))
    ensures |rest| < PayloadSize(header) ==> Feed(HeaderDone(done, header), rest) == Parser(done, header, rest, false)
    ensures |rest| >= PayloadSize(header) ==>
              Feed(HeaderDone(done, header), rest) ==
              Feed(Parser(done + [Message(header, rest[..PayloadSize(header)])], [], [], false), rest[PayloadSize(header)..])
  {
    var n := PayloadSize(header);
    if n == 0 {
      assert rest[..0] == [] && rest[0..] == rest;
    } else if |rest| < n {
      FeedPayload(Parser(done, header, [], false), rest);
      assert [] + rest == rest;
    } else {
      FullPayload(done, header, rest[..n], rest[n..]);
      assert rest == rest[..n] + rest[n..];
    }
  }

  lemma FullPayload(done: seq<Message>, header: seq<Byte>, payload: seq<Byte>, rest: seq<Byte>)
    requires |header| == HEADER_SIZE && !Oversized(header) && 0 < |payload| == PayloadSize(header)
    ensures Feed(Parser(done, header, [], false), payload + rest) == Feed(Parser(done + [Message(header, payload)], [], [], false), rest)
  {
    var p := Parser(done, header, [], false);
    FeedPayload(p, payload);
    FeedConcat(p, payload, rest);
    assert [] + payload == payload;
  }

  // ----- What a sender writes -----

  ghost predicate WellFormed(m: Message) {
    |m.header| == HEADER_SIZE && !Oversized(m.header) && |m.payload| == PayloadSize(m.header)
  }

  ghost function Wire(ms: seq<Message>): seq<Byte> {
    if ms == [] then [] else ms[0].header + ms[0].payload + Wire(ms[1..])
  }

  /** A message at the front of a stream is found there. */
  lemma WholeFront(done: seq<Message>, m: Message, s: seq<Byte>, rest: seq<Byte>)
    requires WellFormed(m) && s == m.header + m.payload + rest
    ensures Whole(done, s) == Whole(done + [m], rest)
  {
    assert s[..HEADER_SIZE] == m.header;
    assert s[HEADER_SIZE..] == m.payload + rest;
    assert (m.payload + rest)[..|m.payload|] == m.payload && (m.payload + rest)[|m.payload|..] == rest;
  }

  /** A part of a message completes nothing and is not rejected. */
  lemma WholePart(done: seq<Message>, m: Message, s: seq<Byte>)
    requires WellFormed(m) && s < m.header + m.payload
    ensures Whole(done, s).done == done && !Whole(done, s).rejected
  {
    if |s| >= HEADER_SIZE {
      assert s[..HEADER_SIZE] == (m.header + m.payload)[..HEADER_SIZE] == m.header;
    }
  }

  /** A part of a stream of messages is some of the messages and a part of the next one. */
  lemma {:induction false} CutPrefix(ms: seq<Message>, s: seq<Byte>) returns (k: nat, part: seq<Byte>)
    requires s <= Wire(ms)
    ensures k <= |ms| && s == Wire(ms[..k]) + part
    ensures if k == |ms| then part == [] else part < ms[k].header + ms[k].payload
    decreases |ms|
  {
    if ms == [] {
      return 0, [];
    }
    var first, others := ms[0].header + ms[0].payload, ms[1..];
    if |s| < |first| {
      ShortPrefix(first, Wire(others), s);
      assert ms[..0] == [] && ms[0..] == ms && [] + s == s;
      return 0, s;
    }
    SplitPrefix(first, Wire(others), s);
    k, part := CutPrefix(others, s[|first|..]);
    assert ms[..k + 1] == [ms[0]] + others[..k];
    assert Wire(ms[..k + 1]) == first + Wire(others[..k]) by {
      assert ms[..k + 1][1..] == others[..k];
    }
    k := k + 1;
  }

  lemma ShortPrefix(a: seq<Byte>, b: seq<Byte>, s: seq<Byte>)
    requires s <= a + b && |s| < |a|
    ensures s < a
  {
    assert s == (a + b)[..|s|] == a[..|s|];
  }

  lemma SplitPrefix(a: seq<Byte>, b: seq<Byte>, s: seq<Byte>)
    requires s <= a + b && |s| >= |a|
    ensures s == a + s[|a|..] && s[|a|..] <= b && (s == a + b ==> s[|a|..] == b)
  {
    assert s[..|a|] == (a + b)[..|a|] == a;
    assert s[|a|..] == (a + b)[|a|..|s|] == b[..|s| - |a|];
  }

  lemma WireSplit(ms: seq<Message>, rest: seq<Byte>)
    requires ms != []
    ensures Wire(ms) + rest == ms[0].header + ms[0].payload + (Wire(ms[1..]) + rest)
  {
  }

  lemma TakeFirst(done: seq<Message>, ms: seq<Message>)
    requires ms != []
    ensures done + ms == done + [ms[0]] + ms[1..]
  {
  }

  /** Messages at the front of a stream are found there, in order. */
  lemma {:induction false} WholeMessages(done: seq<Message>, ms: seq<Message>, rest: seq<Byte>, s: seq<Byte>, all: seq<Message>)
    requires forall i | 0 <= i < |ms| :: WellFormed(ms[i])
    requires s == Wire(ms) + rest && all == done + ms
    ensures Whole(done, s) == Whole(all, rest)
    decreases |ms|
  {
    if ms == [] {
      assert s == rest && all == done;
    } else {
      WireSplit(ms, rest);
      TakeFirst(done, ms);
      WholeFront(done, ms[0], s, Wire(ms[1..]) + rest);
      WholeMessages(done + [ms[0]], ms[1..], rest, Wire(ms[1..]) + rest, all);
    }
  }

  /** Any part of what was sent reads as the first of the messages, intact and in order, and is never rejected. */
  lemma PrefixReads(ms: seq<Message>, s: seq<Byte>)
    requires (forall i | 0 <= i < |ms| :: WellFormed(ms[i])) && s <= Wire(ms)
    ensures Feed(START, s).done <= ms && !Feed(START, s).rejected
    ensures s == Wire(ms) ==> Feed(START, s) == Parser(ms, [], [], false)
  {
    FeedIsWhole([], s);
    var k, part := CutPrefix(ms, s);
    assert [] + ms[..k] == ms[..k];
    WholeMessages([], ms[..k], part, s, ms[..k]);
    if k < |ms| {
      WholePart(ms[..k], ms[k], part);
    }
    if s == Wire(ms) {
      assert Wire(ms) + [] == Wire(ms) && [] + ms == ms;
      WholeMessages([], ms, [], s, ms);
    }
  }
}
