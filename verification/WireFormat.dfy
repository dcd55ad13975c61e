/** The format of ByteBufferWriter and ByteBufferReader (bytebuffer.cc): fixed-width integers in either
    byte order, variable-length integers and byte strings, as byte sequences. */
module WireFormat {
  import opened ByteOrder

  const TWO_TO_64: nat := 0x1_0000_0000_0000_0000

  // ---------------------------------------------------------------------------------------------
  // Variable-length integers

  /** Seven bits at a time, low ones first, the top bit set on all bytes but the last. */
  function Varint(v: nat): (s: seq<byte>)
    ensures s != []
  {
    if v >= 0x80 then [0x80 + v % 0x80] + Varint(v / 0x80) else [v]
  }

  /** The value, not yet cut to 64 bits, and the bytes used, which a failure uses too. */
  datatype VarintReading = VarintFailed(used: nat) | VarintValue(v: nat, used: nat)

  /** At most `k` bytes are looked at. */
  function ReadVarint(s: seq<byte>, k: nat): (r: VarintReading)
    ensures r.used <= |s| && r.used <= k
    decreases k
  {
    if k == 0 || s == [] then VarintFailed(0)
    else if s[0] < 0x80 then VarintValue(s[0], 1)
    else
      match ReadVarint(s[1..], k - 1)
      case VarintFailed(used) => VarintFailed(used + 1)
      case VarintValue(v, used) => VarintValue(s[0] % 0x80 + 0x80 * v, used + 1)
  }

  function Power128(k: nat): (p: nat)
    ensures p > 0
  {
    if k == 0 then 1 else 0x80 * Power128(k - 1)
  }

  lemma {:induction false} ReadVarintMore(b: byte, t: seq<byte>, k: nat)
    requires b >= 0x80 && ReadVarint(t, k).VarintValue?
    ensures var q := ReadVarint(t, k);
            ReadVarint([b] + t, k + 1) == VarintValue(b % 0x80 + 0x80 * q.v, q.used + 1)
  {
    assert ([b] + t)[1..] == t;
  }

  lemma {:induction false} VarintRoundTrip(v: nat, t: seq<byte>, k: nat)
    requires k > 0 && v < Power128(k)
    ensures ReadVarint(Varint(v) + t, k) == VarintValue(v, |Varint(v)|)
    decreases k
  {
    if v < 0x80 {
      assert (Varint(v) + t)[0] == v;
    } else {
      var b, w := 0x80 + v % 0x80, v / 0x80;
      VarintRoundTrip(w, t, k - 1);
      ReadVarintMore(b, Varint(w) + t, k - 1);
      assert Varint(v) + t == [b] + (Varint(w) + t);
    }
  }

  lemma {:induction false} TenBytesSuffice()
    ensures TWO_TO_64 <= Power128(10)
  {
    assert Power128(2) == 0x4000;
    assert Power128(4) == 0x1000_0000;
    assert Power128(6) == 0x400_0000_0000;
    assert Power128(8) == 0x100_0000_0000_0000;
  }

  /** A reading fails exactly when the first `k` bytes, or all there are, ask for another byte, and uses them. */
  lemma {:induction false} VarintFailsIff(s: seq<byte>, k: nat)
    ensures ReadVarint(s, k).VarintFailed? <==> forall i :: 0 <= i < k && i < |s| ==> s[i] >= 0x80
    ensures ReadVarint(s, k).VarintFailed? ==> ReadVarint(s, k).used == if |s| < k then |s| else k
    decreases k
  {
    if k == 0 || s == [] || s[0] < 0x80 {
    } else {
      VarintFailsIff(s[1..], k - 1);
      assert forall i :: 0 < i < |s| ==> s[i] == s[1..][i - 1];
    }
  }

  /** The bytes of a reading are the ones written for the number they add up to exactly when the last one
      carries anything, or is the only one. */
  lemma {:induction false} SumIsCanonical(s: seq<byte>, k: nat)
    requires ReadVarint(s, k).VarintValue?
    ensures var r := ReadVarint(s, k);
            r.used > 0 && (s[..r.used] == Varint(r.v) <==> r.used == 1 || s[r.used - 1] != 0)
    ensures var r := ReadVarint(s, k); r.v == 0 ==> s[r.used - 1] == 0
    decreases k
  {
    if s[0] < 0x80 {
      assert s[..1] == [s[0]];
    } else {
      SumIsCanonical(s[1..], k - 1);
      var r, q := ReadVarint(s, k), ReadVarint(s[1..], k - 1);
      assert s[1..][q.used - 1] == s[r.used - 1];
      CanonicalStep(s[0], s[1..][..q.used], q.v);
      assert s[..r.used] == [s[0]] + s[1..][..q.used];
      assert q.used == 1 ==> q.v == s[1] && s[1..][..1] == [s[1]];
    }
  }

  lemma {:induction false} CanonicalStep(b: byte, t: seq<byte>, v: nat)
    requires b >= 0x80 && t != []
    ensures [b] + t == Varint(b % 0x80 + 0x80 * v) <==> v > 0 && t == Varint(v)
  {
    var w := b % 0x80 + 0x80 * v;
    if v > 0 {
      assert Varint(w) == [b] + Varint(v);
      assert ([b] + t)[1..] == t && Varint(w)[1..] == Varint(v);
    } else {
      assert |Varint(w)| == 1;
    }
  }

  /** `x << 7 * k`. */
  function ShiftUp(x: nat, k: nat): nat
    decreases k
  {
    if k == 0 then x else 0x80 * ShiftUp(x, k - 1)
  }

  /** The last byte decides the magnitude. */
  lemma {:induction false} SumBounds(s: seq<byte>, k: nat)
    requires ReadVarint(s, k).VarintValue?
    ensures var r := ReadVarint(s, k);
            r.used > 0 && ShiftUp(s[r.used - 1], r.used - 1) <= r.v < ShiftUp((s[r.used - 1] as int) + 1, r.used - 1)
    ensures s[ReadVarint(s, k).used - 1] < 0x80
    decreases k
  {
    if s[0] < 0x80 {
    } else {
      var r, q := ReadVarint(s, k), ReadVarint(s[1..], k - 1);
      SumBounds(s[1..], k - 1);
      assert s[1..][q.used - 1] == s[r.used - 1];
    }
  }

  lemma {:induction false} ShiftUpMonotone(x: nat, y: nat, j: nat, k: nat)
    requires x <= y && j <= k
    ensures ShiftUp(x, j) <= ShiftUp(y, k)
    decreases k
  {
    if k == 0 {
    } else if j == k {
      ShiftUpMonotone(x, y, j - 1, k - 1);
    } else {
      ShiftUpMonotone(x, y, j, k - 1);
    }
  }

  lemma {:induction false} ShiftByNine(b: nat)
    ensures ShiftUp(b, 9) == 0x8000_0000_0000_0000 * b
  {
    assert ShiftUp(b, 2) == 0x4000 * b;
    assert ShiftUp(b, 4) == 0x1000_0000 * b;
    assert ShiftUp(b, 6) == 0x400_0000_0000 * b;
    assert ShiftUp(b, 8) == 0x100_0000_0000_0000 * b;
  }

  /** The bytes of at most ten add up to a 64-bit value unless the tenth carries more than one bit. */
  lemma {:induction false} SumFits(s: seq<byte>, k: nat)
    requires ReadVarint(s, k).VarintValue? && k <= 10
    ensures var r := ReadVarint(s, k);
            r.used > 0 && (r.v < TWO_TO_64 <==> r.used < 10 || s[r.used - 1] <= 1)
  {
    var r := ReadVarint(s, k);
    SumBounds(s, k);
    var last, n := s[r.used - 1] as int, r.used - 1;
    if n < 9 {
      ShiftUpMonotone(last + 1, 0x80, n, 8);
      ShiftByNine(1);
      assert ShiftUp(0x80, 8) == ShiftUp(1, 9) by { ShiftUpOnce(8); }
    } else {
      ShiftByNine(last);
      ShiftByNine(last + 1);
    }
  }

  lemma {:induction false} ShiftUpOnce(k: nat)
    ensures ShiftUp(0x80, k) == ShiftUp(1, k + 1)
    decreases k
  {
    if k == 0 {
      assert ShiftUp(1, 1) == 0x80 * ShiftUp(1, 0);
    } else {
      ShiftUpOnce(k - 1);
    }
  }

  /** For the value ReadUVarint returns, cut to 64 bits: the bytes read are the ones written for it
      exactly when there is only one, or the last carries something and nothing is cut off. */
  lemma {:induction false} VarintIsCanonical(s: seq<byte>, k: nat)
    requires ReadVarint(s, k).VarintValue? && k <= 10
    ensures var r := ReadVarint(s, k);
            && r.used > 0
            && (s[..r.used] == Varint(r.v % TWO_TO_64) <==>
                  r.used == 1 || (s[r.used - 1] != 0 && (r.used < 10 || s[r.used - 1] == 1)))
  {
    var r := ReadVarint(s, k);
    SumIsCanonical(s, k);
    SumFits(s, k);
    if r.v < TWO_TO_64 {
      assert r.v % TWO_TO_64 == r.v;
    } else {
      CutIsNotWritten(s, k, r.v % TWO_TO_64);
    }
  }

  /** Bytes that add up to more than a value are not those written for it. */
  lemma {:induction false} CutIsNotWritten(s: seq<byte>, k: nat, v: nat)
    requires ReadVarint(s, k).VarintValue? && k <= 10 && v < TWO_TO_64 && v != ReadVarint(s, k).v
    ensures s[..ReadVarint(s, k).used] != Varint(v)
  {
    var r := ReadVarint(s, k);
    if s[..r.used] == Varint(v) {
      TenBytesSuffice();
      ReadPrefix(s, k);
      VarintRoundTrip(v, [], 10);
      assert Varint(v) + [] == s[..r.used];
      MoreBytes(s[..r.used], k, 10);
    }
  }

  lemma {:induction false} ReadPrefix(s: seq<byte>, k: nat)
    requires ReadVarint(s, k).VarintValue?
    ensures ReadVarint(s[..ReadVarint(s, k).used], k) == ReadVarint(s, k)
    decreases k
  {
    if s[0] < 0x80 {
    } else {
      var r, q := ReadVarint(s, k), ReadVarint(s[1..], k - 1);
      ReadPrefix(s[1..], k - 1);
      assert s[..r.used][1..] == s[1..][..q.used];
    }
  }

  lemma {:induction false} MoreBytes(s: seq<byte>, j: nat, k: nat)
    requires ReadVarint(s, j).VarintValue? && j <= k
    ensures ReadVarint(s, k) == ReadVarint(s, j)
    decreases j
  {
    if s[0] < 0x80 {
    } else {
      MoreBytes(s[1..], j - 1, k - 1);
    }
  }

  /** `n` bytes that only ask for another, then the byte `b`. */
  function Overlong(n: nat, b: byte): (s: seq<byte>)
    ensures |s| == n + 1 && s[n] == b
    decreases n
  {
    if n == 0 then [b] else [0x80] + Overlong(n - 1, b)
  }

  lemma {:induction false} ReadOverlong(n: nat, b: byte)
    requires b < 0x80
    ensures ReadVarint(Overlong(n, b), n + 1) == VarintValue(ShiftUp(b, n), n + 1)
    decreases n
  {
    if n == 0 {
    } else {
      ReadOverlong(n - 1, b);
      assert Overlong(n, b)[1..] == Overlong(n - 1, b);
    }
  }

  // ---------------------------------------------------------------------------------------------
  // Items

  /** The buffer's order, and the host's. */
  datatype Order = Order(network: bool, hostIsBigEndian: bool)

  predicate BigFirst(o: Order) { o.network || o.hostIsBigEndian }

  /** The memory of an integer that WriteBytes copies. */
  function FixedBytes(o: Order, v: nat, width: nat): (s: seq<byte>)
    ensures |s| == width
  {
    if BigFirst(o) then BigEndian(v, width) else LittleEndian(v, width)
  }

  function FixedValue(o: Order, s: seq<byte>): nat {
    if BigFirst(o) then FromBigEndian(s) else FromLittleEndian(s)
  }

  datatype Item = UInt(width: nat, v: nat) | UVarint(v: nat) | Text(bytes: seq<byte>)

  /** What a reader has to know to read an item back. */
  datatype Kind = FixedWidth(width: nat) | VariableWidth | Length(len: nat)

  function KindOf(x: Item): Kind {
    match x
    case UInt(width, _) => FixedWidth(width)
    case UVarint(_) => VariableWidth
    case Text(bytes) => Length(|bytes|)
  }

  predicate HasWidth(width: nat) { width == 1 || width == 2 || width == 3 || width == 4 || width == 8 }

  predicate Fits(x: Item) {
    match x
    case UInt(width, v) => HasWidth(width) && v < Power256(width)
    case UVarint(v) => v < TWO_TO_64
    case Text(_) => true
  }

  function Encode(o: Order, x: Item): seq<byte> {
    match x
    case UInt(width, v) => FixedBytes(o, v, width)
    case UVarint(v) => Varint(v)
    case Text(bytes) => bytes
  }

  /** An item and the bytes after it, or a failure and the bytes it leaves. */
  datatype Reading = Failed(left: seq<byte>) | Got(item: Item, left: seq<byte>)

  function Read(o: Order, kind: Kind, s: seq<byte>): Reading {
    match kind
    case FixedWidth(width) =>
      if width > |s| then Failed(s) else Got(UInt(width, FixedValue(o, s[..width])), s[width..])
    case VariableWidth =>
      var r := ReadVarint(s, 10);
      if r.VarintFailed? then Failed(s[r.used..]) else Got(UVarint(r.v % TWO_TO_64), s[r.used..])
    case Length(len) =>
      if len > |s| then Failed(s) else Got(Text(s[..len]), s[len..])
  }

  lemma {:induction false} ItemRoundTrip(o: Order, x: Item, t: seq<byte>)
    requires Fits(x)
    ensures Read(o, KindOf(x), Encode(o, x) + t) == Got(x, t)
    ensures x.UVarint? ==> |Encode(o, x)| <= 10
  {
    var s, n := Encode(o, x) + t, |Encode(o, x)|;
    assert s[..n] == Encode(o, x) && s[n..] == t;
    match x
    case UInt(width, v) =>
      LittleEndianRoundTrip(v, width);
      BigEndianRoundTrip(v, width);
    case UVarint(v) =>
      TenBytesSuffice();
      VarintRoundTrip(v, t, 10);
    case Text(_) =>
  }

  /** A read of an item fails exactly when there are too few bytes, which it leaves, or when none of ten ends
      a varint, and then it leaves what comes after them. */
  lemma {:induction false} ReadFailsIff(o: Order, kind: Kind, s: seq<byte>)
    ensures kind.FixedWidth? ==> (Read(o, kind, s) == Failed(s) <==> |s| < kind.width)
    ensures kind.Length? ==> (Read(o, kind, s) == Failed(s) <==> |s| < kind.len)
    ensures kind.VariableWidth? ==> (Read(o, kind, s).Failed? <==> forall i :: 0 <= i < 10 && i < |s| ==> s[i] >= 0x80)
    ensures kind.VariableWidth? && Read(o, kind, s).Failed? ==> Read(o, kind, s).left == s[if |s| < 10 then |s| else 10..]
  {
    var k := 10;
    VarintFailsIff(s, k);
  }

  lemma {:induction false} ReadAsZero(o: Order, s: seq<byte>)
    requires ReadVarint(s, 10).VarintValue? && ReadVarint(s, 10).used == |s| && ReadVarint(s, 10).v % TWO_TO_64 == 0
    ensures Read(o, VariableWidth, s) == Got(UVarint(0), []) && Encode(o, UVarint(0)) == [0]
  {
    assert s[|s|..] == [];
  }

  /** An input that is read as 0, for which a single zero byte is written: its last byte is useless. */
  lemma {:induction false} UselessByte(o: Order)
    ensures Encode(o, UVarint(0)) == [0] && Read(o, VariableWidth, Overlong(1, 0)) == Got(UVarint(0), [])
  {
    var n, k := 1, 10;
    ReadOverlong(n, 0);
    MoreBytes(Overlong(n, 0), n + 1, k);
    assert ShiftUp(0, n) == 0;
    ReadAsZero(o, Overlong(n, 0));
  }

  /** Another: its tenth byte carries a bit, which is cut off. */
  lemma {:induction false} LostBit(o: Order)
    ensures Encode(o, UVarint(0)) == [0] && Overlong(9, 2)[9] == 2
    ensures Read(o, VariableWidth, Overlong(9, 2)) == Got(UVarint(0), [])
  {
    var n := 9;
    ReadOverlong(n, 2);
    ShiftByNine(2);
    ReadAsZero(o, Overlong(n, 2));
  }

  /** The bytes on the wire: most significant first in network order or on a big-endian host, and least
      significant first in host order on a little-endian one. */
  lemma {:induction false} FixedOnTheWire(o: Order, v: nat, width: nat, i: nat)
    requires i < width
    ensures Encode(o, UInt(width, v))[i]
         == ShiftRightBytes(v, if o.network || o.hostIsBigEndian then width - 1 - i else i) % 0x100
  {
    BigEndianAt(v, width, i);
    OrdersAreReversed(v, width, i);
    BigEndianAt(v, width, width - 1 - i);
  }

  lemma {:induction false} TwoBytesOnTheWire(o: Order, v: nat)
    requires v < 0x10000
    ensures Encode(o, UInt(2, v)) ==
              if o.network || o.hostIsBigEndian then [v / 0x100, v % 0x100] else [v % 0x100, v / 0x100]
  {
    var w := 2;
    FixedOnTheWire(o, v, w, 0);
    FixedOnTheWire(o, v, w, 1);
  }

  /** `v >> (7 * n)`. */
  function ShiftDown(v: nat, n: nat): nat
    decreases n
  {
    if n == 0 then v else ShiftDown(v / 0x80, n - 1)
  }

  /** Byte `i` holds the seven bits of the value from bit 7 * i on, and the top bit on every byte but the
      last. */
  lemma {:induction false} VarintOnTheWire(v: nat, i: nat)
    requires i < |Varint(v)|
    ensures Varint(v)[i] == ShiftDown(v, i) % 0x80 + if i + 1 < |Varint(v)| then 0x80 else 0
    decreases i
  {
    if i == 0 {
    } else {
      VarintOnTheWire(v / 0x80, i - 1);
    }
  }

  function EncodeAll(o: Order, xs: seq<Item>): seq<byte>
    decreases |xs|
  {
    if xs == [] then [] else Encode(o, xs[0]) + EncodeAll(o, xs[1..])
  }

  /** The items read before the first failure, and the bytes left. */
  datatype ListReading = ListReading(items: seq<Item>, ok: bool, left: seq<byte>)

  function ReadAll(o: Order, kinds: seq<Kind>, s: seq<byte>): ListReading
    decreases |kinds|
  {
    if kinds == [] then ListReading([], true, s)
    else
      match Read(o, kinds[0], s)
      case Failed(left) => ListReading([], false, left)
      case Got(x, left) =>
        var rest := ReadAll(o, kinds[1..], left);
        ListReading([x] + rest.items, rest.ok, rest.left)
  }

  function KindsOf(xs: seq<Item>): (ks: seq<Kind>)
    ensures |ks| == |xs| && forall i :: 0 <= i < |xs| ==> ks[i] == KindOf(xs[i])
  {
    seq(|xs|, i requires 0 <= i < |xs| => KindOf(xs[i]))
  }

  /** Any sequence of items is recovered by the matching sequence of reads, with nothing left over. */
  lemma {:induction false} RoundTrip(o: Order, xs: seq<Item>, t: seq<byte>)
    requires forall i :: 0 <= i < |xs| ==> Fits(xs[i])
    ensures ReadAll(o, KindsOf(xs), EncodeAll(o, xs) + t) == ListReading(xs, true, t)
    decreases |xs|
  {
    if xs == [] {
      assert EncodeAll(o, xs) + t == t;
    } else {
      var rest := EncodeAll(o, xs[1..]) + t;
      assert EncodeAll(o, xs) + t == Encode(o, xs[0]) + rest;
      ItemRoundTrip(o, xs[0], rest);
      RoundTrip(o, xs[1..], t);
      assert KindsOf(xs)[1..] == KindsOf(xs[1..]);
      assert [xs[0]] + xs[1..] == xs;
    }
  }

  lemma {:induction false} EncodeAllSnoc(o: Order, xs: seq<Item>, x: Item)
    ensures EncodeAll(o, xs + [x]) == EncodeAll(o, xs) + Encode(o, x)
    decreases |xs|
  {
    if xs != [] {
      EncodeAllSnoc(o, xs[1..], x);
      assert (xs + [x])[1..] == xs[1..] + [x];
    } else {
      assert ([x])[1..] == [] && xs + [x] == [x];
    }
  }
}
