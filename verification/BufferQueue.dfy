/** BufferQueue (bufferqueue.cc): a bounded queue of packets whose buffers are recycled. */
module BufferQueue {
  import opened ByteOrder
  import B = BufferT

  // ---------------------------------------------------------------------------------------------
  // The queue as a bounded FIFO of byte strings

  datatype Operation = WriteBack(data: seq<byte>) | ReadFront(bytes: nat) | Clear

  /** What happened to a packet that left the queue: read, as far as there was room, or cleared. */
  datatype Removal = WasRead(packet: seq<byte>, got: seq<byte>) | WasCleared(packet: seq<byte>)

  /** The packets queued, those accepted so far and those that left, in order. */
  datatype Fifo = Fifo(queued: seq<seq<byte>>, accepted: seq<seq<byte>>, removed: seq<Removal>)

  const EMPTY := Fifo([], [], [])

  function Cleared(packets: seq<seq<byte>>): (rs: seq<Removal>)
    ensures |rs| == |packets| && forall i :: 0 <= i < |packets| ==> rs[i] == WasCleared(packets[i])
  {
    seq(|packets|, i requires 0 <= i < |packets| => WasCleared(packets[i]))
  }

  function Apply(f: Fifo, capacity: nat, op: Operation): Fifo {
    match op
    case WriteBack(data) =>
      if |f.queued| == capacity then f else f.(queued := f.queued + [data], accepted := f.accepted + [data])
    case ReadFront(bytes) =>
      if f.queued == [] then f
      else f.(queued := f.queued[1..], removed := f.removed + [WasRead(f.queued[0], B.Truncated(f.queued[0], bytes))])
    case Clear => f.(queued := [], removed := f.removed + Cleared(f.queued))
  }

  function Run(f: Fifo, capacity: nat, ops: seq<Operation>): Fifo
    decreases |ops|
  {
    if ops == [] then f else Run(Apply(f, capacity, ops[0]), capacity, ops[1..])
  }

  function Packets(rs: seq<Removal>): (ps: seq<seq<byte>>)
    ensures |ps| == |rs| && forall i :: 0 <= i < |rs| ==> ps[i] == rs[i].packet
  {
    seq(|rs|, i requires 0 <= i < |rs| => rs[i].packet)
  }

  ghost predicate InOrder(f: Fifo, capacity: nat) {
    && f.accepted == Packets(f.removed) + f.queued && |f.queued| <= capacity
    && forall i :: 0 <= i < |f.removed| ==> f.removed[i].WasRead? ==> f.removed[i].got <= f.removed[i].packet
  }

  lemma {:induction false} ApplyKeepsOrder(f: Fifo, capacity: nat, op: Operation)
    requires InOrder(f, capacity)
    ensures InOrder(Apply(f, capacity, op), capacity)
  {
    var g := Apply(f, capacity, op);
    match op
    case WriteBack(data) =>
    case ReadFront(_) =>
      if f.queued != [] {
        assert Packets(g.removed) == Packets(f.removed) + [f.queued[0]];
      }
    case Clear =>
      assert Packets(g.removed) == Packets(f.removed) + f.queued;
  }

  /** Packets leave in the order in which they were accepted, none lost and none twice, and a read
      gets a prefix of its packet. */
  lemma {:induction false} FirstInFirstOut(capacity: nat, ops: seq<Operation>)
    ensures InOrder(Run(EMPTY, capacity, ops), capacity)
  {
    assert Packets([]) == [];
    RunKeepsOrder(EMPTY, capacity, ops);
  }

  lemma {:induction false} RunKeepsOrder(f: Fifo, capacity: nat, ops: seq<Operation>)
    requires InOrder(f, capacity)
    ensures InOrder(Run(f, capacity, ops), capacity)
    decreases |ops|
  {
    if ops == [] {
    } else {
      ApplyKeepsOrder(f, capacity, ops[0]);
      RunKeepsOrder(Apply(f, capacity, ops[0]), capacity, ops[1..]);
    }
  }

  // ---------------------------------------------------------------------------------------------
  // The queue and its free list of buffers

  /** Each of the two lists holds members of `all`, and no member is in two places at once. */
  ghost predicate Apart(queue: seq<B.Buffer<byte>>, free: seq<B.Buffer<byte>>, all: set<B.Buffer<byte>>) {
    && (forall i :: 0 <= i < |queue| ==> queue[i] in all)
    && (forall j :: 0 <= j < |free| ==> free[j] in all)
    && (forall i, j :: 0 <= i < j < |queue| ==> queue[i] != queue[j])
    && (forall i, j :: 0 <= i < j < |free| ==> free[i] != free[j])
    && (forall i, j :: 0 <= i < |queue| && 0 <= j < |free| ==> queue[i] != free[j])
  }

  lemma {:induction false} Recycle(queue: seq<B.Buffer<byte>>, free: seq<B.Buffer<byte>>, all: set<B.Buffer<byte>>)
    requires Apart(queue, free, all) && queue != []
    ensures Apart(queue[1..], free + [queue[0]], all)
  {
  }

  lemma {:induction false} Reuse(queue: seq<B.Buffer<byte>>, free: seq<B.Buffer<byte>>, all: set<B.Buffer<byte>>)
    requires Apart(queue, free, all) && free != []
    ensures Apart(queue + [free[|free| - 1]], free[..|free| - 1], all)
  {
  }

  lemma {:induction false} AddNew(queue: seq<B.Buffer<byte>>, packet: B.Buffer<byte>, free: seq<B.Buffer<byte>>, all: set<B.Buffer<byte>>)
    requires Apart(queue, free, all) && packet !in all
    ensures Apart(queue + [packet], free, all + {packet})
  {
  }

  lemma {:induction false} LastApart(queue: seq<B.Buffer<byte>>, last: B.Buffer<byte>, free: seq<B.Buffer<byte>>, all: set<B.Buffer<byte>>)
    requires Apart(queue + [last], free, all)
    ensures forall i :: 0 <= i < |queue| ==> queue[i] in all && queue[i] != last
  {
    var s := queue + [last];
    assert s[|queue|] == last && forall i :: 0 <= i < |queue| ==> s[i] == queue[i];
  }

  class BufferQueue {
    const capacity: nat
    const defaultSize: nat
    var queue: seq<B.Buffer<byte>>
    var freeList: seq<B.Buffer<byte>>
    /** The buffers ever allocated. */
    ghost var all: set<B.Buffer<byte>>
    /** The packets in the queue. */
    ghost var packets: seq<seq<byte>>

    ghost function Arrays(): set<array<byte>>
      reads this, all
    {
      set b: B.Buffer<byte> | b in all :: b.data
    }

    /** Every buffer is in one place, and there are at most `capacity`. */
    ghost predicate Sound()
      reads this, all
    {
      && Apart(queue, freeList, all) && |all| == |queue| + |freeList| <= capacity
      && OwnStorage()
    }

    /** No two buffers share storage. */
    ghost predicate OwnStorage()
      reads this, all
    {
      && (forall b <- all :: b.Valid())
      && (forall a, b :: a in all && b in all && a != b ==> a.data != b.data)
    }

    ghost predicate Valid()
      reads this, all, Arrays()
    {
      && Sound()
      && |packets| == |queue| && forall i :: 0 <= i < |queue| ==> queue[i].Contents() == packets[i]
    }

    constructor (capacity: nat, defaultSize: nat)
      ensures Valid() && packets == [] && this.capacity == capacity && all == {}
    {
      this.capacity, this.defaultSize := capacity, defaultSize;
      queue, freeList, all, packets := [], [], {}, [];
    }

    /** The front packet, as far as `bytes` reach; its buffer goes to the free list. */
    method ReadFront(bytes: nat) returns (ok: bool, got: seq<byte>, notify: bool)
      requires Valid()
      modifies this
      ensures Valid() && ok == (old(packets) != []) && all == old(all)
      ensures notify == (ok && |old(packets)| == capacity)
      ensures if ok then got == B.Truncated(old(packets)[0], bytes) && packets == old(packets)[1..]
              else packets == old(packets)
      ensures ok ==> queue == old(queue)[1..] && freeList == old(freeList) + [old(queue)[0]]
      ensures ok ==> got <= old(packets)[0] && (|got| == bytes || (got == old(packets)[0] && |got| < bytes))
    {
      if queue == [] {
        return false, [], false;
      }
      notify := !(|queue| < capacity);
      var packet := queue[0];
      var n := if bytes < packet.size then bytes else packet.size;
      got := packet.data[..n];
      assert packet.Contents() == packets[0];
      Recycle(queue, freeList, all);
      queue, freeList := queue[1..], freeList + [packet];
      packets := packets[1..];
      ok := true;
    }

    /** Every buffer of the queue goes to the free list. */
    method Clear()
      requires Valid()
      modifies this
      ensures Valid() && packets == [] && all == old(all)
    {
      while queue != []
        invariant Valid() && all == old(all)
        decreases |queue|
      {
        Recycle(queue, freeList, all);
        freeList, queue := freeList + [queue[0]], queue[1..];
        packets := packets[1..];
      }
    }

    /** A buffer taken from the free list, or a new one when that is empty. */
    method TakeBuffer(size: nat) returns (packet: B.Buffer<byte>)
      requires Valid() && |queue| < capacity
      modifies this
      ensures packet in all && Apart(queue + [packet], freeList, all)
      ensures |all| == |queue| + 1 + |freeList| <= capacity
      ensures OwnStorage() && queue == old(queue) && packets == old(packets)
      ensures forall i :: 0 <= i < |queue| ==> queue[i] in all && queue[i].Contents() == packets[i]
      ensures if old(freeList) != [] then all == old(all) else fresh(packet) && fresh(packet.data) && all == old(all) + {packet}
      ensures if old(freeList) != [] then old(freeList) == freeList + [packet] else packet.data.Length == B.Max(size, defaultSize)
    {
      if freeList != [] {
        packet := freeList[|freeList| - 1];
        Reuse(queue, freeList, all);
        freeList := freeList[..|freeList| - 1];
      } else {
        packet := new B.Buffer<byte>.WithCapacity(seq(size, _ => 0), defaultSize);
        AddNew(queue, packet, freeList, all);
        all := all + {packet};
      }
    }

    /** Writing into one buffer leaves the others as they are. */
    method Fill(packet: B.Buffer<byte>, data: seq<byte>)
      requires packet in all && OwnStorage()
      modifies packet, packet.data
      ensures OwnStorage() && packet.Contents() == data && (packet.data == old(packet.data) || fresh(packet.data))
      ensures forall b <- all :: b != packet ==> b.Contents() == old(b.Contents())
    {
      packet.SetData(data);
    }

    /** A copy of all of `data` at the back, in a recycled buffer when there is one. */
    method WriteBack(data: seq<byte>) returns (ok: bool, notify: bool)
      requires Valid()
      modifies this, all, Arrays()
      ensures Valid() && ok == (|old(packets)| < capacity)
      ensures notify == (ok && old(packets) == [])
      ensures packets == if ok then old(packets) + [data] else old(packets)
      ensures old(all) <= all
      ensures forall b <- all :: (b in old(all) || fresh(b)) && (b.data in old(Arrays()) || fresh(b.data))
    {
      if |queue| == capacity {
        return false, false;
      }
      notify := queue == [];
      var packet := TakeBuffer(|data|);
      LastApart(queue, packet, freeList, all);
      Fill(packet, data);
      Enqueue(packet, data);
      ok := true;
    }

    method Enqueue(packet: B.Buffer<byte>, ghost data: seq<byte>)
      requires Apart(queue + [packet], freeList, all) && |all| == |queue| + 1 + |freeList| <= capacity && OwnStorage()
      requires |packets| == |queue| && forall i :: 0 <= i < |queue| ==> queue[i] in all && queue[i].Contents() == packets[i]
      requires packet in all && packet.Contents() == data
      modifies this
      ensures Valid() && packets == old(packets) + [data] && all == old(all)
    {
      queue := queue + [packet];
      packets := packets + [data];
    }

    method Perform(op: Operation, ghost f: Fifo) returns (results: seq<seq<byte>>)
      requires Valid() && packets == f.queued
      modifies this, all, Arrays()
      ensures Valid() && old(all) <= all
      ensures forall b <- all :: (b in old(all) || fresh(b)) && (b.data in old(Arrays()) || fresh(b.data))
      ensures Matches(f, Apply(f, capacity, op), packets, results)
    {
      GotsOfApply(f, capacity, op);
      results := [];
      match op {
        case WriteBack(data) =>
          var ok, notify := WriteBack(data);
        case ReadFront(bytes) =>
          var ok, got, notify := ReadFront(bytes);
          if ok {
            results := [got];
          }
        case Clear =>
          Clear();
      }
    }

    /** Any run of operations: the queue and what the reads return are those of the FIFO, and the
        buffers ever allocated never exceed the capacity. */
    method Execute(ops: seq<Operation>, ghost f: Fifo) returns (results: seq<seq<byte>>)
      requires Valid() && packets == f.queued
      modifies this, all, Arrays()
      ensures Valid() && |all| <= capacity && old(all) <= all
      ensures Matches(f, Run(f, capacity, ops), packets, results)
      decreases |ops|
    {
      results := [];
      if ops != [] {
        ghost var g := Apply(f, capacity, ops[0]);
        var first := Perform(ops[0], f);
        ghost var between := packets;
        var rest := Execute(ops[1..], g);
        MatchesThen(f, g, Run(g, capacity, ops[1..]), between, packets, first, rest);
        results := first + rest;
      }
    }
  }

  /** A new queue after any run: it holds what the FIFO holds, the reads returned what its reads return,
      packets left in the order in which they were accepted, and at most `capacity` buffers were made. */
  method ExecuteFromNew(capacity: nat, defaultSize: nat, ops: seq<Operation>)
    returns (queue: BufferQueue, results: seq<seq<byte>>)
    ensures queue.Valid() && queue.capacity == capacity && |queue.all| <= capacity
    ensures var g := Run(EMPTY, capacity, ops);
            queue.packets == g.queued && results == Gots(g.removed) && InOrder(g, capacity)
  {
    queue := new BufferQueue(capacity, defaultSize);
    results := queue.Execute(ops, EMPTY);
    FirstInFirstOut(capacity, ops);
    assert Gots(EMPTY.removed) + results == results;
  }

  /** From `f` to `g`, the queue came to hold `packets` and the reads returned `results`. */
  ghost predicate Matches(f: Fifo, g: Fifo, packets: seq<seq<byte>>, results: seq<seq<byte>>) {
    packets == g.queued && Gots(f.removed) + results == Gots(g.removed)
  }

  lemma {:induction false} MatchesThen(f: Fifo, g: Fifo, h: Fifo, between: seq<seq<byte>>, packets: seq<seq<byte>>,
                                       first: seq<seq<byte>>, rest: seq<seq<byte>>)
    requires Matches(f, g, between, first) && Matches(g, h, packets, rest)
    ensures Matches(f, h, packets, first + rest)
  {
    assert (Gots(f.removed) + first) + rest == Gots(f.removed) + (first + rest);
  }

  /** What the reads returned. */
  function Gots(rs: seq<Removal>): seq<seq<byte>>
    decreases |rs|
  {
    if rs == [] then []
    else
      var k := |rs| - 1;
      Gots(rs[..k]) + if rs[k].WasRead? then [rs[k].got] else []
  }

  lemma {:induction false} GotsConcat(rs: seq<Removal>, cleared: seq<seq<byte>>)
    ensures Gots(rs + Cleared(cleared)) == Gots(rs)
    decreases |cleared|
  {
    var all := rs + Cleared(cleared);
    if cleared == [] {
      assert all == rs;
    } else {
      var k := |cleared| - 1;
      GotsConcat(rs, cleared[..k]);
      assert all[..|all| - 1] == rs + Cleared(cleared[..k]);
    }
  }

  lemma {:induction false} GotsOfApply(f: Fifo, capacity: nat, op: Operation)
    ensures Gots(Apply(f, capacity, op).removed)
         == Gots(f.removed) + if op.ReadFront? && f.queued != [] then [B.Truncated(f.queued[0], op.bytes)] else []
  {
    var g := Apply(f, capacity, op);
    if op.Clear? {
      GotsConcat(f.removed, f.queued);
    } else if op.ReadFront? && f.queued != [] {
      assert g.removed[..|f.removed|] == f.removed;
    }
  }
}
