/** AsyncTCPSocket (asynctcpsocket.cc): the operations on its two buffers, in place, proved to do
    what Framing says. The values returned by the underlying socket are parameters; bytes handed to
    it and packets signalled to the client are results. */
module AsyncTcpSocket {
  import opened ByteOrder
  import opened BufferT
  import F = Framing

  /** memmove of `count` elements to the front. */
  method MoveDown(data: array<byte>, from: nat, count: nat)
    requires from + count <= data.Length
    modifies data
    ensures data[..count] == old(data[from..from + count])
  {
    forall i | 0 <= i < count {
      data[i] := data[from + i];
    }
  }

  class Socket {
    const inbuf: Buffer<byte>
    const outbuf: Buffer<byte>

    ghost predicate Valid()
      reads this, inbuf, outbuf
    {
      && inbuf != outbuf && inbuf.data != outbuf.data
      && inbuf.Valid() && outbuf.Valid()
      && F.GoodCapacity(inbuf.size, inbuf.data.Length)
    }

    ghost function In(): seq<byte>
      requires Valid()
      reads this, inbuf, outbuf, inbuf.data
    {
      inbuf.Contents()
    }

    ghost function Out(): seq<byte>
      requires Valid()
      reads this, inbuf, outbuf, outbuf.data
    {
      outbuf.Contents()
    }

    constructor ()
      ensures Valid() && In() == [] && Out() == [] && inbuf.data.Length == F.MINIMUM_RECV_SIZE
      ensures fresh(inbuf) && fresh(outbuf) && fresh(inbuf.data) && fresh(outbuf.data)
    {
      inbuf := new Buffer();
      outbuf := new Buffer();
      new;
      inbuf.EnsureCapacity(F.MINIMUM_RECV_SIZE);
    }

    method FlushOutBuffer(res: int) returns (ret: int, wire: seq<byte>)
      requires Valid()
      modifies outbuf, outbuf.data
      ensures Valid() && outbuf.data == old(outbuf.data)
      ensures F.Sent(Out(), wire, ret) == F.FlushOutBuffer(old(Out()), res)
      ensures 0 < res <= |old(Out())| ==> wire == old(Out())[..res] && Out() == old(Out())[res..] && ret == res
    {
      wire := [];
      if res <= 0 {
        return res, wire;
      }
      if res > outbuf.size {
        return -1, wire;
      }
      wire := outbuf.data[..res];
      var newSize := outbuf.size - res;
      MoveDown(outbuf.data, res, newSize);
      assert outbuf.data[..newSize] == old(outbuf.data[..outbuf.size])[res..];
      outbuf.SetSize(newSize);
      assert outbuf.Contents()[..newSize] == outbuf.Contents();
      ret := res;
    }

    /** `checked` is the debug check that the output buffer does not outgrow its maximum. */
    method AppendToOutBuffer(bytes: seq<byte>) returns (checked: bool)
      requires Valid()
      modifies outbuf, outbuf.data
      ensures Valid() && (outbuf.data == old(outbuf.data) || fresh(outbuf.data))
      ensures Out() == old(Out()) + bytes && outbuf.size == old(outbuf.size) + |bytes|
      ensures checked <==> old(outbuf.size) + |bytes| <= F.BUF_SIZE
    {
      checked := outbuf.size + |bytes| <= F.BUF_SIZE;
      outbuf.AppendData(bytes);
    }

    /** The checks pass exactly for the packets that leave room for the length field. */
    method AppendFrame(p: seq<byte>) returns (checked: bool)
      requires Valid() && Out() == []
      modifies outbuf, outbuf.data
      ensures Valid() && (outbuf.data == old(outbuf.data) || fresh(outbuf.data))
      ensures Out() == F.Frame(p)
      ensures checked <==> |p| <= 0x10000
    {
      var lengthChecked := AppendToOutBuffer(BigEndian(|p|, F.LEN_SIZE));
      var packetChecked := AppendToOutBuffer(p);
      checked := lengthChecked && packetChecked;
    }

    /** The checks of a Send that gets that far fail for the largest packets it accepts. */
    method Send(p: seq<byte>, res: int) returns (ret: int, wire: seq<byte>, checked: bool)
      requires Valid()
      modifies outbuf, outbuf.data
      ensures Valid() && (outbuf.data == old(outbuf.data) || fresh(outbuf.data))
      ensures F.Sent(Out(), wire, ret) == F.SendPacket(old(Out()), p, res)
      ensures checked <==> |p| <= 0x10000 || |p| > F.BUF_SIZE || old(Out()) != []
      ensures old(Out()) == [] && |p| <= 65538 && 0 < res <= |p| + 2 ==>
                wire == F.Frame(p)[..res] && Out() == F.Frame(p)[res..] && ret == |p|
    {
      wire, checked := [], true;
      if |p| > F.BUF_SIZE {
        return -1, wire, checked;
      }
      if outbuf.size != 0 {
        assert old(Out()) != [];
        return |p|, wire, checked;
      }
      checked := AppendFrame(p);
      ret, wire := FlushOutBuffer(res);
      if ret <= 0 {
        outbuf.Clear();
        return ret, wire, checked;
      }
      ret := |p|;
    }

    method OnWriteEvent(res: int) returns (wire: seq<byte>, ready: bool)
      requires Valid()
      modifies outbuf, outbuf.data
      ensures Valid() && outbuf.data == old(outbuf.data)
      ensures var s := F.OnWriteEvent(old(Out()), res); Out() == s.outbuf && wire == s.wire
      ensures 0 < res <= |old(Out())| ==> wire == old(Out())[..res] && Out() == old(Out())[res..]
      ensures !(0 < res <= |old(Out())|) ==> wire == [] && Out() == old(Out())
      ensures ready <==> Out() == []
    {
      wire := [];
      if outbuf.size > 0 {
        var ret;
        ret, wire := FlushOutBuffer(res);
      }
      ready := outbuf.size == 0;
    }

    /** The packets complete in the buffer, which keeps the bytes after them. */
    method ProcessInput(length: nat) returns (packets: seq<F.Packet>, left: nat)
      requires Valid() && length == inbuf.size
      modifies inbuf.data
      ensures left <= length
      ensures F.Parsed(packets, inbuf.data[..left]) == F.Parse(old(In()))
    {
      packets, left := [], length;
      ghost var all, s := F.Parse(In()), In();
      assert [] + all.packets == all.packets;
      while true
        invariant left <= length && s == inbuf.data[..left] && F.Continues(all, packets, s)
        decreases left
      {
        if left < F.LEN_SIZE {
          F.ParseNoFrame(all, packets, s);
          return;
        }
        assert inbuf.data[..left][..F.LEN_SIZE] == inbuf.data[..F.LEN_SIZE];
        var end := F.LEN_SIZE + FromBigEndian(inbuf.data[..F.LEN_SIZE]);
        if left < end {
          F.ParseNoFrame(all, packets, s);
          return;
        }
        assert inbuf.data[..left][F.LEN_SIZE..end] == inbuf.data[F.LEN_SIZE..end];
        F.ParseUnfold(all, packets, s);
        packets := packets + [inbuf.data[F.LEN_SIZE..end]];
        assert inbuf.data[..left][end..] == inbuf.data[end..left];
        left := left - end;
        MoveDown(inbuf.data, end, left);
        s := s[end..];
      }
    }

    /** Room for a Recv, the Recv, and the new size. A negative result leaves the contents alone. */
    method RecvOnce(rest: seq<byte>, want: int) returns (len: int, freeSize: nat)
      requires Valid()
      modifies inbuf, inbuf.data
      ensures Valid() && (inbuf.data == old(inbuf.data) || fresh(inbuf.data))
      ensures inbuf.data.Length == F.CapacityForRecv(old(inbuf.size), old(inbuf.data.Length))
      ensures freeSize == inbuf.data.Length - old(inbuf.size)
      ensures len == F.RecvLength(want, freeSize, |rest|)
      ensures inbuf.size == old(inbuf.size) + if len < 0 then 0 else len
      ensures In() == old(In()) + rest[..inbuf.size - old(inbuf.size)]
    {
      freeSize := inbuf.data.Length - inbuf.size;
      if freeSize < F.MINIMUM_RECV_SIZE && inbuf.data.Length < F.BUF_SIZE {
        inbuf.EnsureCapacity(var twice := inbuf.data.Length + inbuf.data.Length; if F.BUF_SIZE <= twice then F.BUF_SIZE else twice);
        freeSize := inbuf.data.Length - inbuf.size;
      }
      len := F.RecvLength(want, freeSize, |rest|);
      if len >= 0 {
        Fill(rest[..len]);
      } else {
        assert rest[..0] == [];
      }
    }

    /** The receive loop. `stream` is what the socket can still deliver, `want` how much of it each
        Recv gets. The bytes taken are the next ones of the stream and fit the buffer. A willing
        stream is read until it or the space is used up. */
    method Receive(stream: seq<byte>, want: seq<int>) returns (total: nat)
      requires Valid()
      modifies inbuf, inbuf.data
      ensures Valid() && (inbuf.data == old(inbuf.data) || fresh(inbuf.data))
      ensures total <= |stream| && In() == old(In()) + stream[..total]
      ensures (old(inbuf.size) < F.BUF_SIZE && stream != [] && F.Willing(want, 0) > 0) ==> total > 0
      ensures |want| > F.BUF_SIZE && (forall w :: w in want ==> w >= F.BUF_SIZE) ==>
                total == |stream| || inbuf.size == F.BUF_SIZE
    {
      total := 0;
      var k := 0;
      ghost var before := In();
      while true
        invariant Valid() && (inbuf.data == old(inbuf.data) || fresh(inbuf.data))
        invariant total <= |stream| && In() == before + stream[..total] && inbuf.size == |before| + total
        invariant k <= total
        decreases F.BUF_SIZE - inbuf.size
      {
        F.RecvHasSpace(inbuf.size, inbuf.data.Length);
        assert k < |want| ==> want[k] in want;
        var len, freeSize := RecvOnce(stream[total..], F.Willing(want, k));
        if len < 0 {
          break;
        }
        F.Append(before, stream[..total], stream[total..][..len]);
        assert stream[..total] + stream[total..][..len] == stream[..total + len];
        total := total + len;
        if len == 0 || len < freeSize {
          break;
        }
        k := k + 1;
      }
    }

    /** One Recv: the bytes land behind the contents, and SetSize then never reallocates. */
    method Fill(bytes: seq<byte>)
      requires Valid() && inbuf.size + |bytes| <= inbuf.data.Length
      modifies inbuf, inbuf.data
      ensures Valid() && inbuf.data == old(inbuf.data)
      ensures In() == old(In()) + bytes && inbuf.size == old(inbuf.size) + |bytes| && inbuf.copied == old(inbuf.copied)
    {
      var data, size := inbuf.data, inbuf.size;
      forall i | 0 <= i < |bytes| {
        data[size + i] := bytes[i];
      }
      assert data[..size + |bytes|] == old(In()) + bytes;
      inbuf.SetSize(size + |bytes|);
      assert inbuf.Contents() == inbuf.data[..size + |bytes|];
    }

    method OnReadEvent(stream: seq<byte>, want: seq<int>) returns (packets: seq<F.Packet>, total: nat)
      requires Valid()
      modifies inbuf, inbuf.data
      ensures Valid() && (inbuf.data == old(inbuf.data) || fresh(inbuf.data))
      ensures total <= |stream| && old(inbuf.size) + total <= F.BUF_SIZE
      ensures (old(inbuf.size) < F.BUF_SIZE && stream != [] && F.Willing(want, 0) > 0) ==> total > 0
      ensures F.Parsed(packets, In())
           == if total == 0 then F.Parsed([], old(In())) else F.Parse(old(In()) + stream[..total])
    {
      total := Receive(stream, want);
      if total == 0 {
        assert old(In()) + [] == old(In());
        return [], total;
      }
      var left;
      packets, left := ProcessInput(inbuf.size);
      inbuf.SetSize(left);
      assert inbuf.Contents()[..left] == inbuf.Contents() == inbuf.data[..left];
    }
  }

  // ---------------------------------------------------------------------------------------------
  // Two sockets joined by an in-order stream

  /** What is asked of the sockets, with what the underlying sockets answer. */
  datatype Call = Send(p: seq<byte>, res: int) | Writable(res: int) | Readable(want: seq<int>)

  ghost predicate Apart(sender: Socket, receiver: Socket)
    reads sender, sender.inbuf, sender.outbuf, receiver, receiver.inbuf, receiver.outbuf
  {
    && sender.Valid() && receiver.Valid() && {sender.inbuf, sender.outbuf} !! {receiver.inbuf, receiver.outbuf}
    && {sender.inbuf.data, sender.outbuf.data} !! {receiver.inbuf.data, receiver.outbuf.data}
  }

  /** The sockets' buffers and the stream between them are those of the link `l`. */
  ghost predicate Represents(sender: Socket, receiver: Socket, stream: seq<byte>, l: F.Link)
    requires Apart(sender, receiver)
    reads sender, sender.inbuf, sender.outbuf, receiver, receiver.inbuf, receiver.outbuf
    reads sender.outbuf.data, receiver.inbuf.data
  {
    sender.Out() == l.outbuf && stream == l.inFlight && receiver.In() == l.inbuf
  }

  /** The step of the link for a call. How many bytes a read event takes depends on the buffer too. */
  predicate IsStepOf(e: F.Event, call: Call) {
    match call
    case Send(p, res) => e == F.Send(p, res)
    case Writable(res) => e == F.Writable(res)
    case Readable(_) => e.Readable?
  }

  /** Each operation on the sockets is a step of the link. */
  method Perform(sender: Socket, receiver: Socket, stream: seq<byte>, call: Call, ghost l: F.Link)
    returns (rest: seq<byte>, packets: seq<F.Packet>, sent: seq<F.Packet>, ghost e: F.Event)
    requires Apart(sender, receiver) && Represents(sender, receiver, stream, l) && F.Inv(l)
    modifies sender.outbuf, sender.outbuf.data, receiver.inbuf, receiver.inbuf.data
    ensures Apart(sender, receiver) && Represents(sender, receiver, rest, F.Step(l, e))
    ensures sender.outbuf.data == old(sender.outbuf.data) || fresh(sender.outbuf.data)
    ensures receiver.inbuf.data == old(receiver.inbuf.data) || fresh(receiver.inbuf.data)
    ensures F.Step(l, e).delivered == l.delivered + packets && F.Step(l, e).progressed == l.progressed + sent
    ensures IsStepOf(e, call)
  {
    packets, sent := [], [];
    match call {
      case Send(p, res) =>
        e := F.Send(p, res);
        F.SendIsAllOrNothing(l.outbuf, p, res);
        var ret, wire, checked := sender.Send(p, res);
        sent := if wire != [] then [p] else [];
        rest := stream + wire;
      case Writable(res) =>
        e := F.Writable(res);
        var wire, ready := sender.OnWriteEvent(res);
        rest := stream + wire;
      case Readable(want) =>
        var total;
        packets, total := receiver.OnReadEvent(stream, want);
        e := F.Readable(total);
        rest := stream[total..];
    }
  }

  /** Every further run of the sockets is a run of the link. */
  method Continue(sender: Socket, receiver: Socket, stream: seq<byte>, calls: seq<Call>, ghost l: F.Link)
    returns (delivered: seq<F.Packet>, sent: seq<F.Packet>, ghost events: seq<F.Event>)
    requires Apart(sender, receiver) && Represents(sender, receiver, stream, l) && F.Inv(l)
    modifies sender.outbuf, sender.outbuf.data, receiver.inbuf, receiver.inbuf.data
    ensures AreStepsOf(events, calls) && Adds(l, F.Run(l, events), delivered, sent)
    decreases |calls|
  {
    delivered, sent, events := [], [], [];
    if calls != [] {
      var rest, packets, progressed;
      ghost var e;
      rest, packets, progressed, e := Perform(sender, receiver, stream, calls[0], l);
      F.StepKeepsInv(l, e);
      delivered, sent, events := Continue(sender, receiver, rest, calls[1..], F.Step(l, e));
      AddsMore(l, F.Step(l, e), F.Run(F.Step(l, e), events), packets, progressed, delivered, sent);
      F.RunOneMore(l, e, events);
      delivered, sent, events := packets + delivered, progressed + sent, [e] + events;
    }
  }

  /** What was delivered and what made progress between two states of the link. */
  ghost predicate Adds(l: F.Link, r: F.Link, delivered: seq<F.Packet>, sent: seq<F.Packet>) {
    r.delivered == l.delivered + delivered && r.progressed == l.progressed + sent
  }

  lemma {:induction false} AddsMore(l: F.Link, m: F.Link, r: F.Link, d: seq<F.Packet>, p: seq<F.Packet>,
                                    d': seq<F.Packet>, p': seq<F.Packet>)
    requires Adds(l, m, d, p) && Adds(m, r, d', p')
    ensures Adds(l, r, d + d', p + p')
  {
    assert (l.delivered + d) + d' == l.delivered + (d + d');
    assert (l.progressed + p) + p' == l.progressed + (p + p');
  }

  predicate AreStepsOf(events: seq<F.Event>, calls: seq<Call>) {
    |events| == |calls| && forall i :: 0 <= i < |calls| ==> IsStepOf(events[i], calls[i])
  }

  /** Over every run of two sockets the packets signalled at one end are a prefix, in order and byte
      for byte, of those whose Send handed bytes to the stream at the other end, if and only if as many
      of these as have been signalled fit their length field. */
  method Execute(calls: seq<Call>) returns (delivered: seq<F.Packet>, sent: seq<F.Packet>, ghost events: seq<F.Event>)
    ensures AreStepsOf(events, calls)
    ensures delivered == F.After(events).delivered && sent == F.After(events).progressed
    ensures delivered <= sent <==> |delivered| <= |sent| && F.AllFit(sent[..|delivered|])
    ensures F.AllFit(sent) ==> delivered <= sent
  {
    var sender := new Socket();
    var receiver := new Socket();
    assert F.Inv(F.INITIAL) by { F.AfterHasInv([]); }
    delivered, sent, events := Continue(sender, receiver, [], calls, F.INITIAL);
    assert F.INITIAL.delivered + delivered == delivered && F.INITIAL.progressed + sent == sent;
    F.DeliveredInOrder(events);
  }
}
