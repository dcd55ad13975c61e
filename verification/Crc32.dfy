/** CRC-32 (crc32.cc): the table-driven form against the bit-by-bit form of section 8 of RFC 1952. */
module Crc32 {
  import opened ByteOrder
  import opened Bits

  type uint32 = x: int | 0 <= x < 0x1_0000_0000

  const POLYNOMIAL: nat := 0xEDB88320
  const ONES: nat := 0xFFFFFFFF

  // ---------------------------------------------------------------------------------------------
  // The register

  /** The register shifted by one bit. */
  function Shift(c: nat): nat {
    if c % 2 == 1 then Xor(POLYNOMIAL, c / 2) else c / 2
  }

  function Shifts(c: nat, n: nat): nat
    decreases n
  {
    if n == 0 then c else Shifts(Shift(c), n - 1)
  }

  lemma ShiftIsLinear(x: nat, y: nat)
    ensures Shift(Xor(x, y)) == Xor(Shift(x), Shift(y))
  {
    XorUnfold(x, y);
    var u, v, p := x / 2, y / 2, POLYNOMIAL;
    if x % 2 == 1 && y % 2 == 1 {
      XorInterchange(p, u, p, v);
      XorSelf(p);
      XorZero(Xor(u, v));
    } else if x % 2 == 1 {
      XorAssociates(p, u, v);
    } else if y % 2 == 1 {
      XorAssociates(p, v, u);
      XorCommutes(v, u);
      XorCommutes(Xor(p, v), u);
    }
  }

  lemma {:induction false} ShiftsAreLinear(x: nat, y: nat, n: nat)
    ensures Shifts(Xor(x, y), n) == Xor(Shifts(x, n), Shifts(y, n))
    decreases n
  {
    if n == 0 {
    } else {
      ShiftIsLinear(x, y);
      ShiftsAreLinear(Shift(x), Shift(y), n - 1);
    }
  }

  /** The top bit of the result is the bit shifted out: the polynomial has its top bit set. */
  lemma TopBit(c: uint32)
    ensures Shift(c) < 0x1_0000_0000
    ensures Shift(c) >= 0x8000_0000 <==> c % 2 == 1
  {
    WordSize();
    if c % 2 == 1 {
      var u := c / 2;
      XorBound(POLYNOMIAL, u, 32);
      XorShiftRight(POLYNOMIAL, u, 31);
      ShiftRightOfSmall(u, 31);
      XorZero(ShiftRight(POLYNOMIAL, 31));
      ShiftRightOfLarge(POLYNOMIAL, 31);
      if Xor(POLYNOMIAL, u) < 0x8000_0000 {
        ShiftRightOfSmall(Xor(POLYNOMIAL, u), 31);
      }
    }
  }

  lemma ShiftIsInjective(x: uint32, y: uint32)
    requires Shift(x) == Shift(y)
    ensures x == y
  {
    TopBit(x);
    TopBit(y);
    if x % 2 == 1 {
      XorCommutes(POLYNOMIAL, x / 2);
      XorCommutes(POLYNOMIAL, y / 2);
      XorCancels(x / 2, POLYNOMIAL);
      XorCancels(y / 2, POLYNOMIAL);
    }
    SameBits(x, y);
  }

  lemma {:induction false} ShiftsBound(x: uint32, n: nat)
    ensures Shifts(x, n) < 0x1_0000_0000
    decreases n
  {
    if n == 0 {
    } else {
      TopBit(x);
      ShiftsBound(Shift(x), n - 1);
    }
  }

  lemma {:induction false} ShiftsAreInjective(x: uint32, y: uint32, n: nat)
    requires Shifts(x, n) == Shifts(y, n)
    ensures x == y
    decreases n
  {
    if n == 0 {
    } else {
      TopBit(x);
      TopBit(y);
      ShiftsAreInjective(Shift(x), Shift(y), n - 1);
      ShiftIsInjective(x, y);
    }
  }

  /** Shifting out zeros never meets the polynomial. */
  lemma {:induction false} ShiftsOfHighPart(h: nat, n: nat)
    ensures Shifts(ShiftLeft(h, n), n) == h
    decreases n
  {
    if n == 0 {
    } else {
      assert Shift(ShiftLeft(h, n)) == ShiftLeft(h, n - 1);
      ShiftsOfHighPart(h, n - 1);
    }
  }

  // ---------------------------------------------------------------------------------------------
  // A message at a time

  /** One byte, bit by bit. */
  function Feed(c: nat, b: byte): nat {
    Shifts(Xor(c, b), 8)
  }

  function FeedAll(c: nat, m: seq<byte>): nat
    decreases |m|
  {
    if m == [] then c else FeedAll(Feed(c, m[0]), m[1..])
  }

  /** The checksum, bit by bit. */
  function Crc(start: nat, m: seq<byte>): nat {
    Xor(FeedAll(Xor(start, ONES), m), ONES)
  }

  /** What the table holds at index `i`. */
  function TableEntry(i: nat): nat { Shifts(i, 8) }

  /** One byte by table look-up is one byte bit by bit. */
  lemma TableStep(c: nat, b: byte)
    ensures Xor(TableEntry(Xor(c, b) % 0x100), c / 0x100) == Feed(c, b)
  {
    var x := Xor(c, b);
    var low, high := x % 0x100, x / 0x100;
    ByteShifts(x);
    ByteShifts(c);
    ByteShifts(high);
    XorDisjoint(low, high, 8);
    assert x == Xor(low, ShiftLeft(high, 8));
    ShiftsAreLinear(low, ShiftLeft(high, 8), 8);
    ShiftsOfHighPart(high, 8);
    HighPartOfXor(c, b);
  }

  lemma HighPartOfXor(c: nat, b: byte)
    ensures Xor(c, b) / 0x100 == c / 0x100
  {
    ByteShifts(Xor(c, b));
    ByteShifts(c);
    XorShiftRight(c, b, 8);
    ShiftRightOfSmall(b, 8);
    XorZero(ShiftRight(c, 8));
  }

  lemma {:induction false} FeedAllConcat(c: nat, a: seq<byte>, b: seq<byte>)
    ensures FeedAll(c, a + b) == FeedAll(FeedAll(c, a), b)
    decreases |a|
  {
    if a == [] {
      assert a + b == b;
    } else {
      assert (a + b)[1..] == a[1..] + b;
      FeedAllConcat(Feed(c, a[0]), a[1..], b);
    }
  }

  /** Updating with one part and then the other is updating with both. */
  lemma Incremental(start: nat, a: seq<byte>, b: seq<byte>)
    ensures Crc(Crc(start, a), b) == Crc(start, a + b)
  {
    var c := Xor(start, ONES);
    FeedAllConcat(c, a, b);
    XorCancels(FeedAll(c, a), ONES);
  }

  lemma {:induction false} FeedAllBound(c: uint32, m: seq<byte>)
    ensures FeedAll(c, m) < 0x1_0000_0000
    decreases |m|
  {
    if m == [] {
    } else {
      FeedBound(c, m[0]);
      FeedAllBound(Feed(c, m[0]), m[1..]);
    }
  }

  lemma FeedBound(c: uint32, b: byte)
    ensures Xor(c, b) < 0x1_0000_0000
    ensures Feed(c, b) < 0x1_0000_0000
  {
    WordSize();
    XorBound(c, b, 32);
    ShiftsBound(Xor(c, b), 8);
  }

  lemma CrcFits(start: uint32, m: seq<byte>)
    ensures Crc(start, m) < 0x1_0000_0000
  {
    WordSize();
    XorBound(start, ONES, 32);
    FeedAllBound(Xor(start, ONES), m);
    XorBound(FeedAll(Xor(start, ONES), m), ONES, 32);
  }

  // ---------------------------------------------------------------------------------------------
  // Burst detection

  lemma {:induction false} FeedAllIsInjective(c: uint32, d: uint32, m: seq<byte>)
    requires FeedAll(c, m) == FeedAll(d, m)
    ensures c == d
    decreases |m|
  {
    if m == [] {
    } else {
      FeedBound(c, m[0]);
      FeedBound(d, m[0]);
      FeedAllIsInjective(Feed(c, m[0]), Feed(d, m[0]), m[1..]);
      ShiftsAreInjective(Xor(c, m[0]), Xor(d, m[0]), 8);
      XorCancels(c, m[0]);
      XorCancels(d, m[0]);
    }
  }

  /** Two windows fed from one register that end in registers with a small difference are equal:
      undoing the bytes one by one, the difference grows by one byte at a time. */
  lemma {:induction false} WindowIsInjective(c: uint32, m: seq<byte>, w: seq<byte>, v: nat, n: nat)
    requires |m| == |w| && n + 8 * |m| <= 32 && v < Pow2(n)
    requires Xor(FeedAll(c, m), FeedAll(c, w)) == v
    ensures m == w && v == 0
    decreases |m|
  {
    if m == [] {
      XorSelf(c);
    } else {
      var k := |m| - 1;
      var x, y := FeedAll(c, m[..k]), FeedAll(c, w[..k]);
      FeedLast(c, m);
      FeedLast(c, w);
      FeedAllBound(c, m[..k]);
      FeedAllBound(c, w[..k]);
      UndoByte(x, y, m[k], w[k], v, n);
      WindowIsInjective(c, m[..k], w[..k], Xor(x, y), n + 8);
      assert m == m[..k] + [m[k]] && w == w[..k] + [w[k]];
    }
  }

  lemma FeedLast(c: nat, m: seq<byte>)
    requires m != []
    ensures FeedAll(c, m) == Feed(FeedAll(c, m[..|m| - 1]), m[|m| - 1])
  {
    var k := |m| - 1;
    assert m == m[..k] + [m[k]];
    FeedAllConcat(c, m[..k], [m[k]]);
    var c' := FeedAll(c, m[..k]);
    assert FeedAll(c', [m[k]]) == FeedAll(Feed(c', m[k]), [m[k]][1..]) == Feed(c', m[k]);
  }

  /** If two registers differ by `v` below 2^n after a byte each, they differed by `v` shifted up,
      corrected by the bytes, before; and that is zero only if `v` and the bytes' difference are. */
  lemma UndoByte(x: uint32, y: uint32, a: byte, b: byte, v: nat, n: nat)
    requires n <= 24 && v < Pow2(n) && Xor(Feed(x, a), Feed(y, b)) == v
    ensures Xor(x, y) < Pow2(n + 8)
    ensures x == y ==> v == 0 && a == b
  {
    var p, q := Xor(x, a), Xor(y, b);
    FeedBound(x, a);
    FeedBound(y, b);
    WordSize();
    ShiftsAreLinear(p, q, 8);
    XorBound(p, q, 32);
    ShiftsOfHighPart(v, 8);
    ShiftUpBound(v, n);
    ShiftsAreInjective(Xor(p, q), ShiftLeft(v, 8), 8);
    XorInterchange(x, a, y, b);
    var d, e := Xor(x, y), Xor(a, b);
    assert Xor(d, e) == ShiftLeft(v, 8);
    ByteXor(a, b);
    XorCancels(d, e);
    XorCommutes(ShiftLeft(v, 8), e);
    XorDisjoint(e, v, 8);
    assert d == e + ShiftLeft(v, 8);
    SmallSum(e, v, n);
    if x == y { XorSelf(x); ShiftUpZero(v); ByteXorZero(a, b); }
  }

  lemma ShiftUpBound(v: nat, n: nat)
    requires n <= 24 && v < Pow2(n)
    ensures ShiftLeft(v, 8) < 0x1_0000_0000
  {
    PowerGrows(n, 24);
    assert Pow2(24) == 0x100_0000 by {
      ByteShifts(0);
      assert Pow2(12) == 0x1000;
      assert Pow2(16) == 0x10000;
      assert Pow2(20) == 0x10_0000;
    }
    ByteShifts(v);
  }

  lemma ShiftUpZero(v: nat)
    ensures ShiftLeft(v, 8) >= v
  {
    ByteShifts(v);
  }

  lemma ByteXor(a: byte, b: byte)
    ensures Xor(a, b) < 0x100 == Pow2(8)
  {
    ByteShifts(0);
    XorBound(a, b, 8);
  }

  lemma ByteXorZero(a: byte, b: byte)
    ensures Xor(a, b) == 0 ==> a == b
  {
    XorCancels(a, b);
    XorZero(b);
  }

  lemma SmallSum(e: nat, v: nat, n: nat)
    requires e < 0x100 && v < Pow2(n)
    ensures e + ShiftLeft(v, 8) < Pow2(n + 8)
  {
    ByteShifts(v);
    assert Pow2(n + 8) == 16 * Pow2(n + 4) by { assert Pow2(n + 6) == 4 * Pow2(n + 4); }
    assert Pow2(n + 4) == 16 * Pow2(n) by { assert Pow2(n + 2) == 4 * Pow2(n); }
  }

  /** Messages that differ only inside a window of at most four bytes have different checksums. */
  lemma BurstDetected(start: uint32, before: seq<byte>, m: seq<byte>, w: seq<byte>, after: seq<byte>)
    requires |m| == |w| <= 4 && m != w
    ensures Crc(start, before + m + after) != Crc(start, before + w + after)
  {
    WordSize();
    XorBound(start, ONES, 32);
    var s := Xor(start, ONES);
    var c := FeedAll(s, before);
    FeedAllBound(s, before);
    FeedAllConcat(s, before + m, after);
    FeedAllConcat(s, before + w, after);
    FeedAllConcat(s, before, m);
    FeedAllConcat(s, before, w);
    var x, y := FeedAll(c, m), FeedAll(c, w);
    FeedAllBound(c, m);
    FeedAllBound(c, w);
    if Crc(start, before + m + after) == Crc(start, before + w + after) {
      XorCancels(FeedAll(x, after), ONES);
      XorCancels(FeedAll(y, after), ONES);
      FeedAllIsInjective(x, y, after);
      XorSelf(x);
      WindowIsInjective(c, m, w, 0, 0);
      assert false;
    }
  }

  // ---------------------------------------------------------------------------------------------
  // The implementation

  /** The static table: all zero until the first update, then every entry filled in. */
  class Table {
    var table: array<nat>

    ghost predicate Filled()
      reads this, table
    {
      table.Length == 256 && forall i :: 0 <= i < 256 ==> table[i] == TableEntry(i)
    }

    ghost predicate Valid()
      reads this, table
    {
      Filled() || (table.Length == 256 && forall i :: 0 <= i < 256 ==> table[i] == 0)
    }

    constructor ()
      ensures Valid() && fresh(table)
    {
      table := new nat[256](_ => 0);
    }

    method EnsureInited()
      requires Valid()
      modifies table
      ensures Filled()
      ensures old(Filled()) ==> unchanged(table)
    {
      var last := table.Length - 1;
      EntryIsNotZero(last);
      if table[last] != 0 {
        return;
      }
      Fill();
    }

    method Fill()
      requires table.Length == 256
      modifies table
      ensures Filled()
    {
      for i := 0 to table.Length
        invariant forall k :: 0 <= k < i ==> table[k] == TableEntry(k)
      {
        table[i] := Entry(i);
      }
    }

    static method Entry(i: nat) returns (c: nat)
      ensures c == TableEntry(i)
    {
      c := i;
      for j := 0 to 8
        invariant Shifts(c, 8 - j) == TableEntry(i)
      {
        if c % 2 == 1 {
          c := Xor(POLYNOMIAL, c / 2);
        } else {
          c := c / 2;
        }
      }
    }

    method Update(start: uint32, m: seq<byte>) returns (crc: nat)
      requires Valid()
      modifies table
      ensures Filled()
      ensures crc == Crc(start, m) < 0x1_0000_0000
    {
      EnsureInited();
      var c := Xor(start, ONES);
      for i := 0 to |m|
        invariant FeedAll(c, m[i..]) == FeedAll(Xor(start, ONES), m)
        invariant Filled()
      {
        TableStep(c, m[i]);
        assert m[i..][1..] == m[i + 1..];
        c := Xor(table[Xor(c, m[i]) % 0x100], c / 0x100);
      }
      assert m[|m|..] == [];
      crc := Xor(c, ONES);
      CrcFits(start, m);
    }
  }

  /** Only entry 0 is zero, so the last entry tells a filled table from an empty one. */
  lemma EntryIsNotZero(i: byte)
    requires i > 0
    ensures TableEntry(i) != 0
  {
    ShiftsOfHighPart(0, 8);
    ByteShifts(0);
    if Shifts(i, 8) == 0 {
      ShiftsAreInjective(i, 0, 8);
    }
  }
}
