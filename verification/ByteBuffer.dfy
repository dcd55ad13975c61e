/** ByteBufferWriter and ByteBufferReader (bytebuffer.cc) over their buffers, proved against WireFormat. */
module ByteBuffer {
  import opened ByteOrder
  import B = BufferT
  import W = WireFormat

  const DEFAULT_SIZE: nat := 4096

  /** The low three bytes of a four-byte integer in memory, where the source takes them from. */
  lemma {:induction false} LowThree(v: nat)
    ensures BigEndian(v, 4)[1..] == BigEndian(v, 3)
    ensures LittleEndian(v, 4)[..3] == LittleEndian(v, 3)
  {
    DropFirst(v, 3);
    DropLast(v, 3);
  }

  lemma {:induction false} DropFirst(v: nat, k: nat)
    ensures BigEndian(v, k + 1)[1..] == BigEndian(v, k)
    decreases k
  {
    if k == 0 {
    } else {
      DropFirst(v / 0x100, k - 1);
      assert BigEndian(v, k + 1) == BigEndian(v / 0x100, k) + [v % 0x100];
    }
  }

  lemma {:induction false} DropLast(v: nat, k: nat)
    ensures LittleEndian(v, k + 1)[..k] == LittleEndian(v, k)
    decreases k
  {
    if k == 0 {
    } else {
      DropLast(v / 0x100, k - 1);
      assert LittleEndian(v, k + 1) == [v % 0x100] + LittleEndian(v / 0x100, k);
    }
  }

  class Writer {
    const order: W.Order
    var bytes: array<byte>
    var end: nat

    ghost predicate Valid()
      reads this
    {
      end <= bytes.Length
    }

    ghost function Contents(): seq<byte>
      requires Valid()
      reads this, bytes
    {
      bytes[..end]
    }

    constructor (order: W.Order)
      ensures Valid() && fresh(bytes) && this.order == order && Contents() == [] && bytes.Length == 4096
    {
      this.order := order;
      bytes := new byte[DEFAULT_SIZE];
      end := 0;
    }

    constructor From(source: seq<byte>, order: W.Order)
      ensures Valid() && fresh(bytes) && this.order == order && Contents() == source && bytes.Length == |source|
    {
      this.order := order;
      var b := new byte[|source|];
      forall i | 0 <= i < |source| {
        b[i] := source[i];
      }
      bytes := b;
      end := |source|;
    }

    /** Room for `size` bytes, and nothing kept past them. */
    method Resize(size: nat)
      requires Valid()
      modifies this
      ensures Valid() && Contents() == old(Contents()[..if end < size then end else size])
      ensures if size <= old(bytes.Length) then bytes == old(bytes)
              else fresh(bytes) && bytes.Length == B.Max(size, 3 * old(bytes.Length) / 2)
    {
      var len := if end < size then end else size;
      if size > bytes.Length {
        var bigger := new byte[B.Max(size, 3 * bytes.Length / 2)];
        forall i | 0 <= i < len {
          bigger[i] := bytes[i];
        }
        bytes := bigger;
      }
      end := len;
    }

    /** Makes room at the end and returns where it starts. */
    method ReserveWriteBuffer(len: nat) returns (start: nat)
      requires Valid()
      modifies this
      ensures Valid() && start == old(end) && end == start + len && Contents()[..start] == old(Contents())
      ensures bytes == old(bytes) || fresh(bytes)
    {
      if end + len > bytes.Length {
        Resize(end + len);
      }
      start := end;
      end := end + len;
    }

    method WriteBytes(source: seq<byte>)
      requires Valid()
      modifies this, bytes
      ensures Valid() && Contents() == old(Contents()) + source
      ensures bytes == old(bytes) || fresh(bytes)
    {
      ghost var before := Contents();
      var start := ReserveWriteBuffer(|source|);
      assert bytes[..start] == before;
      forall i | 0 <= i < |source| {
        bytes[start + i] := source[i];
      }
      assert bytes[..start] == before;
      assert bytes[start..end] == source;
      assert bytes[..end] == bytes[..start] + bytes[start..end];
    }

    method Clear()
      requires Valid()
      modifies this, bytes
      ensures Valid() && Contents() == [] && bytes == old(bytes) && forall i :: 0 <= i < bytes.Length ==> bytes[i] == 0
    {
      forall i | 0 <= i < bytes.Length {
        bytes[i] := 0;
      }
      end := 0;
    }

    /** The low bytes of `v`; three bytes are cut from the memory of a four-byte integer. */
    method WriteUInt(v: nat, width: nat)
      requires Valid() && W.HasWidth(width)
      modifies this, bytes
      ensures Valid() && Contents() == old(Contents()) + W.Encode(order, W.UInt(width, v))
      ensures bytes == old(bytes) || fresh(bytes)
    {
      if width == 3 {
        LowThree(v);
        var memory := W.FixedBytes(order, v, 4);
        WriteBytes(if W.BigFirst(order) then memory[1..] else memory[..3]);
      } else {
        WriteBytes(W.FixedBytes(order, v, width));
      }
    }

    method WriteUVarint(val: nat)
      requires Valid()
      modifies this, bytes
      ensures Valid() && Contents() == old(Contents()) + W.Encode(order, W.UVarint(val))
      ensures bytes == old(bytes) || fresh(bytes)
    {
      var v := val;
      while v >= 0x80
        invariant Valid() && (bytes == old(bytes) || fresh(bytes))
        invariant Contents() + W.Varint(v) == old(Contents()) + W.Varint(val)
      {
        ghost var before := Contents();
        WriteBytes([0x80 + v % 0x80]);
        assert before + W.Varint(v) == before + [0x80 + v % 0x80] + W.Varint(v / 0x80);
        v := v / 0x80;
      }
      WriteBytes([v]);
    }

    method Write(x: W.Item)
      requires Valid() && W.Fits(x)
      modifies this, bytes
      ensures Valid() && Contents() == old(Contents()) + W.Encode(order, x)
      ensures bytes == old(bytes) || fresh(bytes)
    {
      match x
      case UInt(width, v) => WriteUInt(v, width);
      case UVarint(v) => WriteUVarint(v);
      case Text(text) => WriteBytes(text);
    }

    /** Any sequence of writes, across any reallocations. */
    method WriteAll(xs: seq<W.Item>)
      requires Valid() && forall i :: 0 <= i < |xs| ==> W.Fits(xs[i])
      modifies this, bytes
      ensures Valid() && Contents() == old(Contents()) + W.EncodeAll(order, xs)
    {
      var k := 0;
      ghost var before := Contents();
      assert xs[..0] == [];
      while k < |xs|
        invariant k <= |xs| && Valid() && (bytes == old(bytes) || fresh(bytes))
        invariant Contents() == before + W.EncodeAll(order, xs[..k])
      {
        Write(xs[k]);
        ghost var done, next := W.EncodeAll(order, xs[..k]), W.Encode(order, xs[k]);
        assert (before + done) + next == before + (done + next);
        W.EncodeAllSnoc(order, xs[..k], xs[k]);
        assert xs[..k + 1] == xs[..k] + [xs[k]];
        k := k + 1;
      }
      assert xs[..k] == xs;
    }
  }

  lemma {:induction false} ShiftUpSum(b: nat, x: nat, k: nat)
    ensures W.ShiftUp(b + 0x80 * x, k) == W.ShiftUp(b, k) + W.ShiftUp(x, k + 1)
    decreases k
  {
    if k == 0 {
    } else {
      ShiftUpSum(b, x, k - 1);
    }
  }

  lemma {:induction false} ShiftUpBound(b: nat, k: nat)
    requires b < 0x80
    ensures W.ShiftUp(b, k) + W.Power128(k) <= W.Power128(k + 1)
    decreases k
  {
    if k == 0 {
    } else {
      ShiftUpBound(b, k - 1);
    }
  }

  /** What the loop has read so far, of at most `limit` bytes, and what the bytes to come make of it. */
  ghost predicate SoFar(s: seq<byte>, limit: nat, k: nat, v: nat) {
    && k <= limit && k <= |s| && (k < limit ==> v < W.Power128(k))
    && var all, rest := W.ReadVarint(s, limit), W.ReadVarint(s[k..], limit - k);
       match rest
       case VarintFailed(used) => all == W.VarintFailed(k + used)
       case VarintValue(x, used) => all == W.VarintValue(v + W.ShiftUp(x, k), k + used)
  }

  /** The next seven bits, in their place, as far as they fit into 64 bits. */
  function NextBits(b: byte, k: nat): nat { W.ShiftUp(b % 0x80, k) % W.TWO_TO_64 }

  lemma {:induction false} SoFarStep(s: seq<byte>, limit: nat, k: nat, v: nat)
    requires SoFar(s, limit, k, v) && k < limit <= 10 && k < |s| && s[k] >= 0x80
    ensures SoFar(s, limit, k + 1, v + NextBits(s[k], k))
  {
    if k + 1 < limit {
      NothingLost(k, v, s[k] % 0x80);
      SoFarSum(s, limit, k, v);
    } else {
      SoFarNoMore(s, limit, k, v, v + NextBits(s[k], k));
    }
  }

  lemma {:induction false} VarintStep(s: seq<byte>, k: nat, m: nat)
    requires k < |s| && s[k] >= 0x80 && m > 0
    ensures var rest := W.ReadVarint(s[k + 1..], m - 1);
            W.ReadVarint(s[k..], m) == if rest.VarintFailed? then W.VarintFailed(rest.used + 1)
                                       else W.VarintValue(s[k] % 0x80 + 0x80 * rest.v, rest.used + 1)
  {
    assert s[k..][0] == s[k] && s[k..][1..] == s[k + 1..];
  }

  lemma {:induction false} SoFarSum(s: seq<byte>, limit: nat, k: nat, v: nat)
    requires SoFar(s, limit, k, v) && k < limit && k < |s| && s[k] >= 0x80
    requires v + W.ShiftUp(s[k] % 0x80, k) < W.Power128(k + 1)
    ensures SoFar(s, limit, k + 1, v + W.ShiftUp(s[k] % 0x80, k))
  {
    VarintStep(s, k, limit - k);
    var rest := W.ReadVarint(s[k + 1..], limit - k - 1);
    if rest.VarintValue? {
      ShiftUpSum(s[k] % 0x80, rest.v, k);
    }
  }

  lemma {:induction false} SoFarNoMore(s: seq<byte>, limit: nat, k: nat, v: nat, any: nat)
    requires SoFar(s, limit, k, v) && k + 1 == limit && k < |s| && s[k] >= 0x80
    ensures SoFar(s, limit, k + 1, any)
  {
    VarintStep(s, k, limit - k);
  }

  lemma {:induction false} SoFarLast(s: seq<byte>, limit: nat, k: nat, v: nat)
    requires SoFar(s, limit, k, v) && k < limit && k < |s| && s[k] < 0x80
    ensures W.ReadVarint(s, limit) == W.VarintValue(v + W.ShiftUp(s[k], k), k + 1)
  {
    assert s[k..][0] == s[k];
  }

  lemma {:induction false} SoFarEnds(s: seq<byte>, limit: nat, k: nat, v: nat)
    requires SoFar(s, limit, k, v) && (k == limit || k == |s|)
    ensures W.ReadVarint(s, limit) == W.VarintFailed(k)
  {
  }

  lemma {:induction false} LastBits(k: nat, v: nat, b: byte)
    requires k < 10 && v < W.Power128(k) && b < 0x80
    ensures v + NextBits(b, k) == (v + W.ShiftUp(b, k)) % W.TWO_TO_64
  {
    assert b % 0x80 == b;
    if k < 9 {
      NothingLost(k, v, b);
    } else {
      TopBit(k, v, b);
    }
  }

  lemma {:induction false} SoFarDone(s: seq<byte>, limit: nat, k: nat, v: nat)
    requires SoFar(s, limit, k, v) && k < limit <= 10 && k < |s| && s[k] < 0x80
    ensures var r := W.ReadVarint(s, limit);
            r.VarintValue? && r.used == k + 1 && v + NextBits(s[k], k) == r.v % W.TWO_TO_64
  {
    SoFarLast(s, limit, k, v);
    LastBits(k, v, s[k]);
  }

  /** Before the tenth byte everything fits. */
  lemma {:induction false} NothingLost(k: nat, v: nat, b: nat)
    requires k < 9 && v < W.Power128(k) && b < 0x80
    ensures v + W.ShiftUp(b, k) < W.Power128(k + 1)
    ensures W.ShiftUp(b, k) % W.TWO_TO_64 == W.ShiftUp(b, k)
    ensures (v + W.ShiftUp(b, k)) % W.TWO_TO_64 == v + W.ShiftUp(b, k)
  {
    NinthPower();
    ShiftUpBound(b, k);
    PowersGrow(k + 1, 9);
    ModSmall(W.ShiftUp(b, k));
    ModSmall(v + W.ShiftUp(b, k));
  }

  lemma {:induction false} ModSmall(x: nat)
    requires x < W.TWO_TO_64
    ensures x % W.TWO_TO_64 == x
  {
  }

  /** Of the tenth byte only the lowest bit is kept. */
  lemma {:induction false} TopBit(k: nat, v: nat, b: nat)
    requires k == 9 && v < W.Power128(k) && b < 0x80
    ensures v + W.ShiftUp(b, k) % W.TWO_TO_64 == (v + W.ShiftUp(b, k)) % W.TWO_TO_64
  {
    NinthPower();
    W.ShiftByNine(b);
    TopBitOf(v, b, W.ShiftUp(b, k));
  }

  lemma {:induction false} TopBitOf(v: nat, b: nat, x: nat)
    requires v < 0x8000_0000_0000_0000 && x == 0x8000_0000_0000_0000 * b
    ensures v + x % W.TWO_TO_64 == (v + x) % W.TWO_TO_64
  {
    var q, r := b / 2, b % 2;
    assert x == W.TWO_TO_64 * q + 0x8000_0000_0000_0000 * r;
    Remainder(q, 0x8000_0000_0000_0000 * r);
    Remainder(q, v + 0x8000_0000_0000_0000 * r);
  }

  lemma {:induction false} Remainder(q: nat, r: nat)
    requires r < W.TWO_TO_64
    ensures (W.TWO_TO_64 * q + r) % W.TWO_TO_64 == r
  {
  }

  lemma {:induction false} NinthPower()
    ensures W.Power128(9) == 0x8000_0000_0000_0000
  {
    assert W.Power128(2) == 0x4000;
    assert W.Power128(4) == 0x1000_0000;
    assert W.Power128(6) == 0x400_0000_0000;
    assert W.Power128(8) == 0x100_0000_0000_0000;
  }

  lemma {:induction false} PowersGrow(j: nat, k: nat)
    requires j <= k
    ensures W.Power128(j) <= W.Power128(k)
    decreases k
  {
    if j == k {
    } else {
      PowersGrow(j, k - 1);
    }
  }

  class Reader {
    const order: W.Order
    const bytes: seq<byte>
    var start: nat
    const end: nat

    ghost predicate Valid()
      reads this
    {
      start <= end == |bytes|
    }

    ghost function Left(): seq<byte>
      requires Valid()
      reads this
    {
      bytes[start..end]
    }

    constructor (bytes: seq<byte>, order: W.Order)
      ensures Valid() && this.order == order && Left() == bytes
    {
      this.order := order;
      this.bytes := bytes;
      start, end := 0, |bytes|;
    }

    method ReadBytes(len: nat) returns (ok: bool, val: seq<byte>)
      requires Valid()
      modifies this
      ensures Valid() && (ok <==> len <= |old(Left())|)
      ensures if ok then val == old(Left())[..len] && Left() == old(Left())[len..] else Left() == old(Left())
    {
      if len > end - start {
        return false, [];
      }
      val := bytes[start..start + len];
      start := start + len;
      ok := true;
    }

    method Consume(size: nat) returns (ok: bool)
      requires Valid()
      modifies this
      ensures Valid() && (ok <==> size <= |old(Left())|)
      ensures Left() == if ok then old(Left())[size..] else old(Left())
    {
      if size > end - start {
        return false;
      }
      start := start + size;
      ok := true;
    }

    /** Three bytes are read into the memory of a four-byte integer that is zero. */
    method ReadUInt(width: nat) returns (ok: bool, val: nat)
      requires Valid() && W.HasWidth(width)
      modifies this
      ensures Valid()
      ensures W.Read(order, W.FixedWidth(width), old(Left()))
           == if ok then W.Got(W.UInt(width, val), Left()) else W.Failed(Left())
    {
      var memory;
      ok, memory := ReadBytes(width);
      if !ok {
        return false, 0;
      }
      if width == 3 {
        ZeroByte(memory);
        memory := if W.BigFirst(order) then [0] + memory else memory + [0];
      }
      val := W.FixedValue(order, memory);
    }

    /** The loop, for at most `limit` bytes. A failure leaves the bytes it looked at consumed. */
    method ReadVarintBytes(limit: nat) returns (ok: bool, val: nat)
      requires Valid() && limit <= 10
      modifies this
      ensures Valid()
      ensures var r := W.ReadVarint(old(Left()), limit);
              && Left() == old(Left())[r.used..]
              && ok == r.VarintValue? && (ok ==> val == r.v % W.TWO_TO_64)
    {
      ghost var s := Left();
      val := 0;
      var k := 0;
      assert s[0..] == s;
      while k < limit
        invariant Valid() && k <= limit && SoFar(s, limit, k, val) && Left() == s[k..]
      {
        var more, b := ReadBytes(1);
        assert more == (k < |s|);
        if !more {
          SoFarEnds(s, limit, k, val);
          return false, 0;
        }
        assert b[0] == s[k] && Left() == s[k + 1..];
        ghost var before := val;
        val := val + NextBits(b[0], k);
        if b[0] < 0x80 {
          SoFarDone(s, limit, k, before);
          return true, val;
        }
        SoFarStep(s, limit, k, before);
        k := k + 1;
      }
      SoFarEnds(s, limit, k, val);
      ok, val := false, 0;
    }

    method ReadUVarint() returns (ok: bool, val: nat)
      requires Valid()
      modifies this
      ensures Valid()
      ensures W.Read(order, W.VariableWidth, old(Left()))
           == if ok then W.Got(W.UVarint(val), Left()) else W.Failed(Left())
    {
      ok, val := ReadVarintBytes(10);
    }

    method Read(kind: W.Kind) returns (r: W.Reading)
      requires Valid() && (kind.FixedWidth? ==> W.HasWidth(kind.width))
      modifies this
      ensures Valid() && r == W.Read(order, kind, old(Left())) && r.left == Left()
    {
      match kind
      case FixedWidth(width) =>
        var ok, v := ReadUInt(width);
        r := if ok then W.Got(W.UInt(width, v), bytes[start..end]) else W.Failed(bytes[start..end]);
      case VariableWidth =>
        var ok, v := ReadUVarint();
        r := if ok then W.Got(W.UVarint(v), bytes[start..end]) else W.Failed(bytes[start..end]);
      case Length(len) =>
        var ok, text := ReadBytes(len);
        r := if ok then W.Got(W.Text(text), bytes[start..end]) else W.Failed(bytes[start..end]);
    }

    /** Any sequence of reads, up to the first that fails. */
    method ReadAll(kinds: seq<W.Kind>) returns (r: W.ListReading)
      requires Valid() && forall i :: 0 <= i < |kinds| ==> kinds[i].FixedWidth? ==> W.HasWidth(kinds[i].width)
      modifies this
      ensures Valid() && r == W.ReadAll(order, kinds, old(Left())) && r.left == Left()
      decreases |kinds|
    {
      if kinds == [] {
        return W.ListReading([], true, bytes[start..end]);
      }
      var first := Read(kinds[0]);
      match first
      case Failed(left) => r := W.ListReading([], false, left);
      case Got(x, _) =>
        var rest := ReadAll(kinds[1..]);
        r := W.ListReading([x] + rest.items, rest.ok, rest.left);
    }
  }

  /** A reader over what a writer holds recovers every item, with nothing left over. */
  method WriteThenRead(xs: seq<W.Item>, order: W.Order) returns (r: W.ListReading)
    requires forall i :: 0 <= i < |xs| ==> W.Fits(xs[i])
    ensures r == W.ListReading(xs, true, [])
  {
    var writer := new Writer(order);
    writer.WriteAll(xs);
    var reader := new Reader(writer.bytes[..writer.end], order);
    r := reader.ReadAll(W.KindsOf(xs));
    W.RoundTrip(order, xs, []);
    assert W.EncodeAll(order, xs) + [] == W.EncodeAll(order, xs);
    assert [] + W.EncodeAll(order, xs) == W.EncodeAll(order, xs);
  }

  lemma {:induction false} ZeroByte(s: seq<byte>)
    ensures FromBigEndian([0] + s) == FromBigEndian(s)
    ensures FromLittleEndian(s + [0]) == FromLittleEndian(s)
  {
    ZeroBefore(s);
    ZeroAfter(s);
  }

  lemma {:induction false} ZeroBefore(s: seq<byte>)
    ensures FromBigEndian([0] + s) == FromBigEndian(s)
    decreases |s|
  {
    var t := [0] + s;
    if s == [] {
      assert t == [0] && t[..0] == [];
    } else {
      ZeroBefore(s[..|s| - 1]);
      assert t[..|t| - 1] == [0] + s[..|s| - 1];
    }
  }

  lemma {:induction false} ZeroAfter(s: seq<byte>)
    ensures FromLittleEndian(s + [0]) == FromLittleEndian(s)
    decreases |s|
  {
    var t := s + [0];
    if s == [] {
      assert t == [0] && t[1..] == [];
    } else {
      ZeroAfter(s[1..]);
      assert t[1..] == s[1..] + [0];
    }
  }
}
