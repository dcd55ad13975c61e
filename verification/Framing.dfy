/** The packet framing of AsyncTCPSocket (asynctcpsocket.cc) on values: what each operation does to
    the output and input buffers, and what arrives at the far end of an in-order byte stream. */
module Framing {
  import opened ByteOrder

  type Packet = seq<byte>

  const LEN_SIZE: nat := 2
  const BUF_SIZE: nat := 0x10002
  const MINIMUM_RECV_SIZE: nat := 128

  // ---------------------------------------------------------------------------------------------
  // Frames

  /** The length field holds the low 16 bits of the packet's length. */
  function Frame(p: Packet): seq<byte> {
    BigEndian(|p|, LEN_SIZE) + p
  }

  /** On the wire: the high byte of the length, its low byte, and the packet. */
  lemma {:induction false} FrameBytes(p: Packet)
    ensures |Frame(p)| == 2 + |p| && Frame(p)[2..] == p
    ensures Frame(p)[0] == |p| / 0x100 % 0x100 && Frame(p)[1] == |p| % 0x100
  {
    var n := |p|;
    assert BigEndian(n, 2) == BigEndian(n / 0x100, 1) + [n % 0x100];
    assert BigEndian(n / 0x100, 1) == BigEndian(n / 0x100 / 0x100, 0) + [n / 0x100 % 0x100];
  }

  function Frames(ps: seq<Packet>): seq<byte> {
    if |ps| == 0 then [] else Frame(ps[0]) + Frames(ps[1..])
  }

  datatype Parsed = Parsed(packets: seq<Packet>, rest: seq<byte>)

  /** The complete frames at the start of `s`, and the bytes after them. */
  function Parse(s: seq<byte>): Parsed
    decreases |s|
  {
    if |s| < LEN_SIZE then Parsed([], s)
    else
      var end := LEN_SIZE + FromBigEndian(s[..LEN_SIZE]);
      if |s| < end then Parsed([], s)
      else
        var next := Parse(s[end..]);
        Parsed([s[LEN_SIZE..end]] + next.packets, next.rest)
  }

  predicate Fits(p: Packet) { |p| < 0x10000 }

  predicate AllFit(ps: seq<Packet>) { forall p :: p in ps ==> Fits(p) }

  lemma LengthField(p: Packet)
    requires Fits(p)
    ensures FromBigEndian(BigEndian(|p|, LEN_SIZE)) == |p|
  {
    assert Power256(2) == 0x100 * Power256(1) == 0x10000;
    BigEndianRoundTrip(|p|, LEN_SIZE);
  }

  lemma ParseFrame(p: Packet, s: seq<byte>)
    requires Fits(p)
    ensures Parse(Frame(p) + s) == Parsed([p] + Parse(s).packets, Parse(s).rest)
  {
    LengthField(p);
    var t := Frame(p) + s;
    assert t[..LEN_SIZE] == BigEndian(|p|, LEN_SIZE);
    assert t[LEN_SIZE..LEN_SIZE + |p|] == p;
    assert t[LEN_SIZE + |p|..] == s;
  }

  lemma {:induction false} ParseFrames(ps: seq<Packet>, s: seq<byte>)
    requires AllFit(ps)
    ensures Parse(Frames(ps) + s) == Parsed(ps + Parse(s).packets, Parse(s).rest)
    decreases |ps|
  {
    if |ps| == 0 {
      assert Frames(ps) + s == s;
      assert ps + Parse(s).packets == Parse(s).packets;
    } else {
      var p, qs := ps[0], ps[1..];
      assert ps == [p] + qs;
      FramesCons(p, qs, s);
      ParseFrame(p, Frames(qs) + s);
      ParseFrames(qs, s);
      PacketsCons(p, qs, Parse(s).packets);
    }
  }

  lemma PacketsCons(p: Packet, qs: seq<Packet>, more: seq<Packet>)
    ensures [p] + (qs + more) == [p] + qs + more
  {
  }

  lemma {:induction false} FramesConcat(ps: seq<Packet>, qs: seq<Packet>)
    ensures Frames(ps + qs) == Frames(ps) + Frames(qs)
    decreases |ps|
  {
    if |ps| == 0 {
      assert ps + qs == qs;
    } else {
      assert (ps + qs)[1..] == ps[1..] + qs;
      FramesConcat(ps[1..], qs);
    }
  }

  lemma FramesCons(p: Packet, ps: seq<Packet>, r: seq<byte>)
    ensures Frames([p] + ps) + r == Frame(p) + (Frames(ps) + r)
  {
    assert ([p] + ps)[1..] == ps;
  }

  lemma FramesOne(p: Packet)
    ensures Frames([p]) == Frame(p)
  {
    assert Frames([p][1..]) == [];
  }

  predicate StartsWithFrame(s: seq<byte>) {
    |s| >= LEN_SIZE && |s| >= LEN_SIZE + FromBigEndian(s[..LEN_SIZE])
  }

  /** Where the frame at the start of `s` ends. */
  function FrameEnd(s: seq<byte>): nat
    requires |s| >= LEN_SIZE
  {
    LEN_SIZE + FromBigEndian(s[..LEN_SIZE])
  }

  /** `packets` and the parse of `s` make up the parse `all`. */
  ghost predicate Continues(all: Parsed, packets: seq<Packet>, s: seq<byte>) {
    all.packets == packets + Parse(s).packets && all.rest == Parse(s).rest
  }

  lemma {:induction false} ParseUnfold(all: Parsed, packets: seq<Packet>, s: seq<byte>)
    requires StartsWithFrame(s) && Continues(all, packets, s)
    ensures Continues(all, packets + [s[LEN_SIZE..FrameEnd(s)]], s[FrameEnd(s)..])
  {
    var p, next := s[LEN_SIZE..FrameEnd(s)], Parse(s[FrameEnd(s)..]);
    assert Parse(s) == Parsed([p] + next.packets, next.rest);
    PacketsMove(packets, p, next.packets);
  }

  lemma {:induction false} PacketsMove(a: seq<Packet>, p: Packet, b: seq<Packet>)
    ensures a + ([p] + b) == a + [p] + b
  {
  }

  lemma {:induction false} ParseNoFrame(all: Parsed, packets: seq<Packet>, s: seq<byte>)
    requires !StartsWithFrame(s) && Continues(all, packets, s)
    ensures all == Parsed(packets, s)
  {
    assert packets + [] == packets;
  }

  /** What Parse does to a stream that starts with a complete frame. */
  lemma {:induction false} ParseHead(s: seq<byte>) returns (p: Packet, t: seq<byte>)
    requires StartsWithFrame(s)
    ensures s == Frame(p) + t && Fits(p) && |t| < |s|
    ensures Parse(s).packets == [p] + Parse(t).packets && Parse(s).rest == Parse(t).rest
  {
    p, t := s[LEN_SIZE..FrameEnd(s)], s[FrameEnd(s)..];
    FrameAtStart(s, p, t);
    assert Parse(s) == Parsed([p] + Parse(t).packets, Parse(t).rest);
  }

  lemma {:induction false} FrameAtStart(s: seq<byte>, p: Packet, t: seq<byte>)
    requires StartsWithFrame(s) && p == s[LEN_SIZE..FrameEnd(s)] && t == s[FrameEnd(s)..]
    ensures s == Frame(p) + t && Fits(p)
  {
    var field := s[..LEN_SIZE];
    assert Power256(2) == 0x100 * Power256(1) == 0x10000;
    BigEndianIsOnto(field);
    assert BigEndian(|p|, LEN_SIZE) == field;
    assert s == field + p + t;
  }

  lemma {:induction false} ParseRebuilds(s: seq<byte>)
    ensures Frames(Parse(s).packets) + Parse(s).rest == s
    decreases |s|
  {
    if StartsWithFrame(s) {
      var p, t := ParseHead(s);
      ParseRebuilds(t);
      FramesCons(p, Parse(t).packets, Parse(t).rest);
    } else {
      assert Frames([]) + s == s;
    }
  }

  lemma {:induction false} ParseFits(s: seq<byte>)
    ensures AllFit(Parse(s).packets) && !StartsWithFrame(Parse(s).rest)
    decreases |s|
  {
    if !StartsWithFrame(s) {
    } else {
      var p, t := ParseHead(s);
      ParseFits(t);
    }
  }

  /** Parsing loses and invents nothing: its packets, framed again, followed by the rest are the
      input, and the rest holds no complete frame. */
  lemma ParseConserves(s: seq<byte>)
    ensures Frames(Parse(s).packets) + Parse(s).rest == s
    ensures AllFit(Parse(s).packets)
    ensures Parse(Parse(s).rest) == Parsed([], Parse(s).rest)
  {
    ParseRebuilds(s);
    ParseFits(s);
  }

  /** The parse of a longer stream continues the parse of its start. */
  lemma {:induction false} ParseAppend(a: seq<byte>, b: seq<byte>)
    ensures Parse(a + b) == Parsed(Parse(a).packets + Parse(Parse(a).rest + b).packets, Parse(Parse(a).rest + b).rest)
  {
    ParseConserves(a);
    var ps, r := Parse(a).packets, Parse(a).rest;
    assert a + b == Frames(ps) + (r + b);
    ParseFrames(ps, r + b);
  }

  /** The receiver gets back exactly the packet that was framed. */
  predicate Recovered(p: Packet) { Parse(Frame(p)) == Parsed([p], []) }

  /** It does if and only if the packet's length fits the 16-bit field. */
  lemma RecoveredIffFits(p: Packet)
    ensures Recovered(p) <==> Fits(p)
  {
    if Fits(p) {
      ParseFrame(p, []);
      assert Frame(p) + [] == Frame(p);
    }
    ParseConserves(Frame(p));
    assert Recovered(p) ==> p in Parse(Frame(p)).packets;
  }

  /** Send accepts packets of up to BUF_SIZE bytes, so it accepts some that it frames wrongly. */
  lemma OversizedPacketIsMisframed() returns (p: Packet)
    ensures |p| <= BUF_SIZE && SendPacket([], p, |Frame(p)|).wire == Frame(p) && !Recovered(p)
  {
    p := seq(0x10000, _ => 0);
    RecoveredIffFits(p);
    assert Frame(p)[..|Frame(p)|] == Frame(p);
  }

  // ---------------------------------------------------------------------------------------------
  // Sending

  /** The output buffer after an operation, the bytes handed to the stream, and the value returned. */
  datatype Sent = Sent(outbuf: seq<byte>, wire: seq<byte>, ret: int)

  /** `res` is the value the socket's own Send returns. */
  function FlushOutBuffer(outbuf: seq<byte>, res: int): Sent {
    if res <= 0 then Sent(outbuf, [], res)
    else if res > |outbuf| then Sent(outbuf, [], -1)
    else Sent(outbuf[res..], outbuf[..res], res)
  }

  function SendPacket(outbuf: seq<byte>, p: Packet, res: int): Sent {
    if |p| > BUF_SIZE then Sent(outbuf, [], -1)
    else if outbuf != [] then Sent(outbuf, [], |p|)
    else
      var f := FlushOutBuffer(Frame(p), res);
      if f.ret <= 0 then Sent([], [], f.ret) else Sent(f.outbuf, f.wire, |p|)
  }

  function OnWriteEvent(outbuf: seq<byte>, res: int): Sent {
    if |outbuf| > 0 then FlushOutBuffer(outbuf, res) else Sent(outbuf, [], 0)
  }

  predicate MadeProgress(outbuf: seq<byte>, p: Packet, res: int) {
    outbuf == [] && |p| <= BUF_SIZE && 0 < res <= |Frame(p)|
  }

  /** A packet either goes out whole, its first bytes now and the others from the buffer later, or
      leaves neither bytes on the wire nor a trace in the buffer. */
  lemma SendIsAllOrNothing(outbuf: seq<byte>, p: Packet, res: int)
    ensures var s := SendPacket(outbuf, p, res);
            if MadeProgress(outbuf, p, res) then s.wire + s.outbuf == Frame(p) && s.wire != []
            else s.wire == [] && s.outbuf == outbuf
    ensures MadeProgress(outbuf, p, res) ==> SendPacket(outbuf, p, res).wire == Frame(p)[..res]
  {
    if MadeProgress(outbuf, p, res) {
      assert Frame(p)[..res] + Frame(p)[res..] == Frame(p);
    }
  }

  /** What Send returns: the packet's length when it made progress or was dropped behind a pending frame,
      and otherwise an error, the socket's own or -1. It refuses exactly the packets over 65538 bytes. */
  lemma SendReturns(outbuf: seq<byte>, p: Packet, res: int)
    ensures var ret := SendPacket(outbuf, p, res).ret;
            if |p| > 65538 then ret == -1
            else if outbuf != [] || 0 < res <= |p| + 2 then ret == |p|
            else ret <= 0 && ret == if res <= 0 then res else -1
    ensures MadeProgress(outbuf, p, res) <==> outbuf == [] && |p| <= 65538 && 0 < res <= |p| + 2
  {
    FrameBytes(p);
  }

  // ---------------------------------------------------------------------------------------------
  // Receiving

  /** How much the stream is willing to give the `k`-th Recv of a read event; it blocks in the end. */
  function Willing(want: seq<int>, k: nat): int {
    if k < |want| then want[k] else -1
  }

  /** What Recv returns when the stream is willing to give `want` bytes: any value from -1 to the
      space offered and the bytes available arises for some `want`. */
  function RecvLength(want: int, free: nat, available: nat): int {
    if want < 0 then -1
    else if want <= free && want <= available then want
    else if free <= available then free
    else available
  }

  /** The capacity of the input buffer at the next Recv. */
  function CapacityForRecv(size: nat, capacity: nat): nat
    requires size <= capacity
  {
    if capacity - size < MINIMUM_RECV_SIZE && capacity < BUF_SIZE then
      if BUF_SIZE <= capacity + capacity then BUF_SIZE else capacity + capacity
    else capacity
  }

  predicate GoodCapacity(size: nat, capacity: nat) {
    size <= capacity && MINIMUM_RECV_SIZE <= capacity <= BUF_SIZE
  }

  /** A Recv is offered space whenever the buffer can hold more, at least 128 bytes of it unless the buffer
      has grown to its limit of 65538, and growing keeps the bounds. */
  lemma RecvHasSpace(size: nat, capacity: nat)
    requires GoodCapacity(size, capacity)
    ensures GoodCapacity(size, CapacityForRecv(size, capacity))
    ensures size < BUF_SIZE <==> CapacityForRecv(size, capacity) - size > 0
    ensures CapacityForRecv(size, capacity) - size >= 128 || CapacityForRecv(size, capacity) == 65538
    ensures CapacityForRecv(size, capacity) >= capacity
  {
  }

  lemma Append(a: seq<byte>, b: seq<byte>, c: seq<byte>)
    ensures a + (b + c) == a + b + c
  {
  }

  /** A full input buffer holds a complete frame, so one read event never leaves it full. */
  lemma FullBufferHasFrame(s: seq<byte>)
    requires |s| >= BUF_SIZE - 1
    ensures Parse(s).packets != []
  {
    assert Power256(2) == 0x100 * Power256(1) == 0x10000;
    BigEndianIsOnto(s[..LEN_SIZE]);
  }

  // ---------------------------------------------------------------------------------------------
  // A sender, an in-order stream and a receiver

  datatype Event =
    | Send(p: Packet, res: int)
    | Writable(res: int)
    | Readable(count: nat)

  /** `progressed` logs the packets whose Send made progress, `received` every byte received. */
  datatype Link = Link(outbuf: seq<byte>, inFlight: seq<byte>, inbuf: seq<byte>,
                       received: seq<byte>, delivered: seq<Packet>, progressed: seq<Packet>)

  const INITIAL := Link([], [], [], [], [], [])

  function Transmit(l: Link, s: Sent): Link {
    l.(outbuf := s.outbuf, inFlight := l.inFlight + s.wire)
  }

  /** A read event takes some bytes, as many as fit at most, and then processes the buffer. */
  function Read(l: Link, count: nat): Link {
    var space := if |l.inbuf| < BUF_SIZE then BUF_SIZE - |l.inbuf| else 0;
    var n := RecvLength(count, space, |l.inFlight|);
    if n <= 0 then l
    else
      var bytes := l.inFlight[..n];
      var parsed := Parse(l.inbuf + bytes);
      l.(inFlight := l.inFlight[n..], inbuf := parsed.rest,
         received := l.received + bytes, delivered := l.delivered + parsed.packets)
  }

  function Step(l: Link, e: Event): Link {
    match e
    case Send(p, res) =>
      var l' := Transmit(l, SendPacket(l.outbuf, p, res));
      if MadeProgress(l.outbuf, p, res) then l'.(progressed := l.progressed + [p]) else l'
    case Writable(res) => Transmit(l, OnWriteEvent(l.outbuf, res))
    case Readable(count) => Read(l, count)
  }

  /** The invariant of a run. Every byte of every packet that made progress is, in order, either
      delivered, in the input buffer, on the way or in the output buffer; and what was delivered is
      the parse of all bytes received. */
  ghost predicate Inv(l: Link) {
    && |l.inbuf| < BUF_SIZE - 1
    && Frames(l.progressed) == l.received + l.inFlight + l.outbuf
    && Parse(l.received) == Parsed(l.delivered, l.inbuf)
  }

  lemma SendStep(l: Link, p: Packet, res: int)
    requires Inv(l)
    ensures Inv(Step(l, Send(p, res)))
  {
    SendIsAllOrNothing(l.outbuf, p, res);
    var s := SendPacket(l.outbuf, p, res);
    if MadeProgress(l.outbuf, p, res) {
      FramesConcat(l.progressed, [p]);
      FramesOne(p);
      MoveBytes(l.received, l.inFlight, s.wire, s.outbuf);
      assert l.received + l.inFlight + [] == l.received + l.inFlight;
    } else {
      assert l.inFlight + s.wire == l.inFlight;
    }
  }

  lemma MoveBytes(a: seq<byte>, b: seq<byte>, c: seq<byte>, d: seq<byte>)
    ensures a + (b + c) + d == a + b + (c + d)
  {
  }

  lemma WriteStep(l: Link, res: int)
    requires Inv(l)
    ensures Inv(Step(l, Writable(res)))
  {
    var s := OnWriteEvent(l.outbuf, res);
    assert s.wire + s.outbuf == l.outbuf;
    MoveBytes(l.received, l.inFlight, s.wire, s.outbuf);
  }

  lemma ReadStep(l: Link, count: nat)
    requires Inv(l)
    ensures Inv(Step(l, Readable(count)))
  {
    var n := RecvLength(count, BUF_SIZE - |l.inbuf|, |l.inFlight|);
    if n > 0 {
      var bytes, rest := l.inFlight[..n], l.inFlight[n..];
      assert l.inFlight == bytes + rest;
      Append(l.received, bytes, rest);
      ParseAppend(l.received, bytes);
      ParseConserves(l.inbuf + bytes);
      NoFrameNoFullBuffer(Parse(l.inbuf + bytes).rest);
    }
  }

  lemma NoFrameNoFullBuffer(s: seq<byte>)
    requires Parse(s).packets == []
    ensures |s| < BUF_SIZE - 1
  {
    if |s| >= BUF_SIZE - 1 { FullBufferHasFrame(s); }
  }

  lemma StepKeepsInv(l: Link, e: Event)
    requires Inv(l)
    ensures Inv(Step(l, e))
  {
    match e
    case Send(p, res) => SendStep(l, p, res);
    case Writable(res) => WriteStep(l, res);
    case Readable(count) => ReadStep(l, count);
  }

  function Run(l: Link, events: seq<Event>): Link
    decreases |events|
  {
    if events == [] then l else Run(Step(l, events[0]), events[1..])
  }

  lemma {:induction false} RunOneMore(l: Link, e: Event, events: seq<Event>)
    ensures Run(l, [e] + events) == Run(Step(l, e), events)
  {
    assert ([e] + events)[1..] == events;
  }

  lemma {:induction false} RunKeepsInv(l: Link, events: seq<Event>)
    requires Inv(l)
    ensures Inv(Run(l, events))
    decreases |events|
  {
    if events == [] {
    } else {
      StepKeepsInv(l, events[0]);
      RunKeepsInv(Step(l, events[0]), events[1..]);
    }
  }

  /** The state after a run of events from the start. */
  function After(events: seq<Event>): Link { Run(INITIAL, events) }

  lemma {:induction false} AfterHasInv(events: seq<Event>)
    ensures Inv(After(events))
  {
    RunKeepsInv(INITIAL, events);
  }

  /** If the framing of `ps` starts with bytes that parse to `qs`, then `ps` starts with `qs`. */
  lemma {:induction false} ParsedPrefix(ps: seq<Packet>, a: seq<byte>, x: seq<byte>)
    requires AllFit(ps) && Frames(ps) == a + x
    ensures Parse(a).packets <= ps
    ensures x == [] ==> Parse(a) == Parsed(ps, [])
  {
    ParseFrames(ps, []);
    assert Frames(ps) + [] == a + x;
    ParseAppend(a, x);
    assert ps + [] == ps;
    assert x == [] ==> a + x == a;
  }

  /** End to end, for every run: the packets delivered are a prefix, in order and byte for byte, of the
      packets whose Send made progress, if and only if as many of these as have been delivered fit their
      length field. In particular they are when all of them fit. */
  lemma {:induction false} DeliveredInOrder(events: seq<Event>)
    ensures var l := After(events);
            && (l.delivered <= l.progressed <==>
                  |l.delivered| <= |l.progressed| && AllFit(l.progressed[..|l.delivered|]))
            && (AllFit(l.progressed) ==> l.delivered <= l.progressed)
  {
    var l := After(events);
    AfterHasInv(events);
    var n := |l.delivered|;
    ParseFits(l.received);
    assert l.delivered <= l.progressed ==> l.progressed[..n] == l.delivered;
    if n <= |l.progressed| && AllFit(l.progressed[..n]) {
      FittingPrefix(l, n);
    }
    if AllFit(l.progressed) {
      InvDelivers(l);
    }
  }

  lemma {:induction false} FittingPrefix(l: Link, n: nat)
    requires Inv(l) && n == |l.delivered| <= |l.progressed| && AllFit(l.progressed[..n])
    ensures l.delivered <= l.progressed
  {
    var head, tail := l.progressed[..n], Frames(l.progressed[n..]);
    assert l.progressed == head + l.progressed[n..];
    FramesConcat(head, l.progressed[n..]);
    ParseFrames(head, tail);
    var rest := l.inFlight + l.outbuf;
    assert l.received + l.inFlight + l.outbuf == l.received + rest;
    ParseAppend(l.received, rest);
    SameHead(l.delivered, head, Parse(l.inbuf + rest).packets, Parse(tail).packets);
  }

  lemma {:induction false} SameHead(a: seq<Packet>, b: seq<Packet>, c: seq<Packet>, d: seq<Packet>)
    requires a + c == b + d && |a| == |b|
    ensures a == b
  {
    assert (a + c)[..|a|] == a && (b + d)[..|b|] == b;
  }

  predicate NothingUnderWay(l: Link) { l.inFlight == [] && l.outbuf == [] }

  /** Once nothing is under way: the packets delivered are a prefix of those that made progress, and then
      all of them with no byte left over, if and only if every one of these fits its length field. */
  lemma {:induction false} DeliveredIffFits(events: seq<Event>)
    requires NothingUnderWay(After(events))
    ensures var l := After(events);
            && (l.delivered <= l.progressed <==> AllFit(l.progressed))
            && (l.delivered == l.progressed && l.inbuf == [] <==> AllFit(l.progressed))
  {
    var l := After(events);
    AfterHasInv(events);
    ParseFits(l.received);
    if AllFit(l.progressed) {
      InvDelivers(l);
    } else if l.delivered <= l.progressed {
      NoneLeft(l);
    }
  }

  /** The frame of a packet of any length starts with a complete frame. */
  lemma {:induction false} FrameHoldsFrame(p: Packet, t: seq<byte>)
    ensures StartsWithFrame(Frame(p) + t)
  {
    var s := Frame(p) + t;
    assert s[..LEN_SIZE] == BigEndian(|p|, LEN_SIZE);
    BigEndianIsLow(|p|, LEN_SIZE);
  }

  /** At rest, a prefix delivered is everything delivered: what is left would start with a frame. */
  lemma {:induction false} NoneLeft(l: Link)
    requires Inv(l) && NothingUnderWay(l) && l.delivered <= l.progressed
    ensures l.delivered == l.progressed
  {
    var n := |l.delivered|;
    if n < |l.progressed| {
      var left := l.progressed[n..];
      assert l.progressed == l.delivered + left;
      FramesConcat(l.delivered, left);
      ParseConserves(l.received);
      ParseFits(l.received);
      assert l.received + l.inFlight + l.outbuf == l.received;
      SameTail(Frames(l.delivered), l.inbuf, Frames(left));
      FrameHoldsFrame(left[0], Frames(left[1..]));
    }
  }

  lemma {:induction false} SameTail(a: seq<byte>, b: seq<byte>, c: seq<byte>)
    requires a + b == a + c
    ensures b == c
  {
    assert (a + b)[|a|..] == b && (a + c)[|a|..] == c;
  }

  lemma {:induction false} InvDelivers(l: Link)
    requires Inv(l) && AllFit(l.progressed)
    ensures l.delivered <= l.progressed
    ensures NothingUnderWay(l) ==> l.delivered == l.progressed && l.inbuf == []
  {
    assert l.received + l.inFlight + l.outbuf == l.received + (l.inFlight + l.outbuf);
    ParsedPrefix(l.progressed, l.received, l.inFlight + l.outbuf);
  }

  /** Chunking does not matter: after any two runs in which the same bytes were received, whatever
      the reads were, the same packets are delivered and the same bytes are left over. */
  lemma ChunkingIrrelevant(events: seq<Event>, events': seq<Event>)
    requires After(events).received == After(events').received
    ensures After(events).delivered == After(events').delivered && After(events).inbuf == After(events').inbuf
  {
    AfterHasInv(events);
    AfterHasInv(events');
  }

  /** The input buffer is never left full, so a read event always has room for bytes under way. It takes
      as many as the stream gives, up to those under way and the room there is. */
  lemma {:induction false} ReadMakesProgress(events: seq<Event>, count: nat) returns (n: nat)
    ensures var l := After(events);
            var r := Step(l, Readable(count));
            && n <= count && n <= |l.inFlight| && n <= 65538 - |l.inbuf|
            && (n == count || n == |l.inFlight| || n == 65538 - |l.inbuf|)
            && (l.inFlight != [] && count > 0 ==> n > 0)
            && r.received == l.received + l.inFlight[..n] && r.inFlight == l.inFlight[n..] && r.outbuf == l.outbuf
  {
    AfterHasInv(events);
    var l := After(events);
    n := RecvLength(count, BUF_SIZE - |l.inbuf|, |l.inFlight|);
    assert l.received + [] == l.received;
  }

  /** A write event hands the stream as many pending bytes as the socket takes and keeps the others; it
      changes nothing when the socket takes none, or claims more than there are. */
  lemma {:induction false} WriteSends(events: seq<Event>, res: int)
    ensures var l := After(events);
            Step(l, Writable(res)) ==
              if 0 < res <= |l.outbuf| then l.(inFlight := l.inFlight + l.outbuf[..res], outbuf := l.outbuf[res..]) else l
  {
    var l := After(events);
    assert l.inFlight + [] == l.inFlight;
  }

  lemma {:induction false} RunConcat(l: Link, a: seq<Event>, b: seq<Event>)
    ensures Run(l, a + b) == Run(Run(l, a), b)
    decreases |a|
  {
    if a == [] {
      assert a + b == b;
    } else {
      assert (a + b)[1..] == a[1..] + b;
      RunConcat(Step(l, a[0]), a[1..], b);
    }
  }

  /** No further Send. */
  predicate OnlyDrains(events: seq<Event>) { forall e :: e in events ==> !e.Send? }

  lemma {:induction false} ReadAll(l: Link) returns (more: seq<Event>)
    requires Inv(l) && l.outbuf == []
    ensures OnlyDrains(more) && NothingUnderWay(Run(l, more)) && Run(l, more).progressed == l.progressed
    decreases |l.inFlight|
  {
    if l.inFlight == [] {
      more := [];
    } else {
      var e := Readable(|l.inFlight|);
      StepKeepsInv(l, e);
      var rest := ReadAll(Step(l, e));
      RunOneMore(l, e, rest);
      more := [e] + rest;
    }
  }

  lemma {:induction false} DrainAll(l: Link) returns (more: seq<Event>)
    requires Inv(l)
    ensures OnlyDrains(more) && NothingUnderWay(Run(l, more)) && Run(l, more).progressed == l.progressed
  {
    var e := Writable(|l.outbuf|);
    StepKeepsInv(l, e);
    var rest := ReadAll(Step(l, e));
    RunOneMore(l, e, rest);
    more := [e] + rest;
  }

  /** No byte is ever stuck: from the end of every run some write and read events bring everything under way
      to the receiver, and all the packets that made progress with it if they fit their length field. */
  lemma {:induction false} EverythingArrives(events: seq<Event>) returns (more: seq<Event>)
    ensures OnlyDrains(more) && NothingUnderWay(After(events + more))
    ensures After(events + more).progressed == After(events).progressed
    ensures AllFit(After(events).progressed) <==>
              After(events + more).delivered == After(events).progressed && After(events + more).inbuf == []
  {
    AfterHasInv(events);
    more := DrainAll(After(events));
    RunConcat(INITIAL, events, more);
    DeliveredIffFits(events + more);
  }
}
