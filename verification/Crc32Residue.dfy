/** Which checksum it is (crc32.cc): a message followed by its own checksum has the residue of CRC-32, whatever
    the message. The constant is worked out on machine words, whose values are the numbers of Bits. */
module Crc32Residue {
  import opened ByteOrder
  import opened Bits
  import opened Crc32

  // ---------------------------------------------------------------------------------------------
  // Machine words as numbers

  function Bit(x: bv32): nat { if x & 1 == 1 then 1 else 0 }

  function Value(x: bv32): nat
    decreases x
  {
    if x == 0 then 0 else Bit(x) + 2 * Value(x >> 1)
  }

  lemma {:induction false} ValueUnfold(x: bv32)
    ensures Value(x) == Bit(x) + 2 * Value(x >> 1)
    ensures Value(x) / 2 == Value(x >> 1) && Value(x) % 2 == Bit(x)
  {
    if x == 0 { assert x >> 1 == 0; }
  }

  lemma {:induction false} Halves(x: bv32)
    requires x != 0
    ensures x >> 1 < x && (x & 1 != 1 ==> x >> 1 != 0)
  {
  }

  lemma {:induction false} ValuePositive(x: bv32)
    requires x != 0
    ensures Value(x) > 0
    decreases x
  {
    Halves(x);
    ValueUnfold(x);
    if x & 1 == 1 {
    } else {
      ValuePositive(x >> 1);
    }
  }

  lemma {:induction false} XorHalves(x: bv32, y: bv32)
    ensures Value((x ^ y) >> 1) == Value((x >> 1) ^ (y >> 1))
  {
    assert (x ^ y) >> 1 == (x >> 1) ^ (y >> 1);
  }

  lemma {:induction false} XorBits(x: bv32, y: bv32)
    ensures Bit(x ^ y) == if Bit(x) == Bit(y) then 0 else 1
  {
  }

  lemma {:induction false} HalfValue(x: bv32)
    ensures Value(x >> 1) <= Value(x) && (x != 0 ==> Value(x >> 1) < Value(x))
  {
    ValueUnfold(x);
    if x != 0 { ValuePositive(x); }
  }

  /** The exclusive or of numbers is that of machine words. */
  ghost predicate XorAgrees(x: bv32, y: bv32) { Xor(Value(x), Value(y)) == Value(x ^ y) }

  lemma {:induction false} ValueXor(x: bv32, y: bv32)
    ensures XorAgrees(x, y)
    decreases Value(x) + Value(y)
  {
    if x == 0 && y == 0 {
    } else {
      HalfValue(x);
      HalfValue(y);
      ValueXor(x >> 1, y >> 1);
      XorAgreesFrom(x, y);
    }
  }

  lemma {:induction false} XorAgreesFrom(x: bv32, y: bv32)
    requires XorAgrees(x >> 1, y >> 1)
    ensures XorAgrees(x, y)
  {
    XorHalves(x, y);
    XorAgreesStep(x, y);
  }

  lemma {:induction false} XorAgreesStep(x: bv32, y: bv32)
    requires Xor(Value(x >> 1), Value(y >> 1)) == Value((x ^ y) >> 1)
    ensures Xor(Value(x), Value(y)) == Value(x ^ y)
  {
    XorBits(x, y);
    ValueUnfold(x);
    ValueUnfold(y);
    ValueUnfold(x ^ y);
    XorOfHalves(Value(x), Value(y), Value(x ^ y));
  }

  lemma {:induction false} XorOfHalves(a: nat, b: nat, r: nat)
    requires r % 2 == (if a % 2 == b % 2 then 0 else 1) && r / 2 == Xor(a / 2, b / 2)
    ensures Xor(a, b) == r
  {
    XorUnfold(a, b);
  }

  lemma {:induction false} ShiftedTwice(x: bv32)
    ensures Value(x >> 1 >> 1) == Value(x >> 2)
  {
    assert x >> 1 >> 1 == x >> 2;
  }

  lemma {:induction false} ValueOfPair(x: bv32)
    ensures Value(x) == Bit(x) + 2 * Bit(x >> 1) + 4 * Value(x >> 2)
  {
    ValueUnfold(x);
    ValueUnfold(x >> 1);
    ShiftedTwice(x);
  }

  function Pair(x: bv32): nat { Bit(x) + 2 * Bit(x >> 1) }

  lemma {:induction false} ValueOfPairs(x: bv32, y: bv32, z: bv32)
    requires y == x >> 2 && z == y >> 2
    ensures Value(x) == Pair(x) + 4 * Pair(y) + 16 * Value(z)
  {
    ValueOfPair(x);
    ValueOfPair(y);
  }

  lemma {:induction false} ValueOfNibble(x: bv32)
    ensures Value(x) == Pair(x) + 4 * Pair(x >> 2) + 16 * Value(x >> 2 >> 2)
  {
    ValueOfPairs(x, x >> 2, x >> 2 >> 2);
  }

  lemma {:induction false} PolynomialValue()
    ensures Value(0xEDB88320) == 0xEDB88320
  {
    ValueOfNibble(0xEDB88320);
    ValueOfNibble(0xEDB8832);
    ValueOfNibble(0xEDB883);
    ValueOfNibble(0xEDB88);
    ValueOfNibble(0xEDB8);
    ValueOfNibble(0xEDB);
    ValueOfNibble(0xED);
    ValueOfNibble(0xE);
  }

  lemma {:induction false} OnesValue()
    ensures Value(0xFFFFFFFF) == 0xFFFFFFFF
  {
    ValueOfNibble(0xFFFFFFFF);
    ValueOfNibble(0xFFFFFFF);
    ValueOfNibble(0xFFFFFF);
    ValueOfNibble(0xFFFFF);
    ValueOfNibble(0xFFFF);
    ValueOfNibble(0xFFF);
    ValueOfNibble(0xFF);
    ValueOfNibble(0xF);
  }

  lemma {:induction false} ResidueValue()
    ensures Value(0x2144DF1C) == 0x2144DF1C
  {
    ValueOfNibble(0x2144DF1C);
    ValueOfNibble(0x2144DF1);
    ValueOfNibble(0x2144DF);
    ValueOfNibble(0x2144D);
    ValueOfNibble(0x2144);
    ValueOfNibble(0x214);
    ValueOfNibble(0x21);
    ValueOfNibble(0x2);
  }

  // ---------------------------------------------------------------------------------------------
  // The register as a machine word

  function ShiftWord(x: bv32): bv32 { if x & 1 == 1 then 0xEDB88320 ^ (x >> 1) else x >> 1 }

  lemma {:induction false} ShiftOfWord(x: bv32)
    ensures Shift(Value(x)) == Value(ShiftWord(x))
  {
    ValueUnfold(x);
    PolynomialValue();
    ValueXor(0xEDB88320, x >> 1);
  }

  function ShiftWords(x: bv32, n: nat): bv32
    decreases n
  {
    if n == 0 then x else ShiftWords(ShiftWord(x), n - 1)
  }

  lemma {:induction false} ShiftsOfWord(x: bv32, n: nat)
    ensures Shifts(Value(x), n) == Value(ShiftWords(x, n))
    decreases n
  {
    if n == 0 {
    } else {
      ShiftOfWord(x);
      ShiftsOfWord(ShiftWord(x), n - 1);
    }
  }

  lemma {:induction false} ShiftWordsAdd(x: bv32, m: nat, n: nat)
    ensures ShiftWords(x, m + n) == ShiftWords(ShiftWords(x, m), n)
    decreases m
  {
    if m == 0 {
    } else {
      ShiftWordsAdd(ShiftWord(x), m - 1, n);
    }
  }

  lemma {:induction false} ShiftTwice(x: bv32, y: bv32, z: bv32, n: nat)
    requires ShiftWords(x, n) == y && ShiftWords(y, n) == z
    ensures ShiftWords(x, n + n) == z
  {
    ShiftWordsAdd(x, n, n);
  }

  lemma {:induction false} OnesByFour()
    ensures ShiftWords(0xFFFFFFFF, 4) == 0xB2420DE3 && ShiftWords(0xB2420DE3, 4) == 0x2DFD1072
    ensures ShiftWords(0x2DFD1072, 4) == 0x39B1F1CF && ShiftWords(0x39B1F1CF, 4) == 0xBE26ED00
    ensures ShiftWords(0xBE26ED00, 4) == 0xBE26ED0 && ShiftWords(0xBE26ED0, 4) == 0xBE26ED
    ensures ShiftWords(0xBE26ED, 4) == 0x86D830BA && ShiftWords(0x86D830BA, 4) == 0xDEBB20E3
  {
  }

  lemma {:induction false} OnesShifted(n: nat)
    requires n == 4
    ensures ShiftWords(0xFFFFFFFF, n + n + (n + n) + (n + n + (n + n))) == 0xDEBB20E3
  {
    OnesByFour();
    ShiftTwice(0xFFFFFFFF, 0xB2420DE3, 0x2DFD1072, n);
    ShiftTwice(0x2DFD1072, 0x39B1F1CF, 0xBE26ED00, n);
    ShiftTwice(0xBE26ED00, 0xBE26ED0, 0xBE26ED, n);
    ShiftTwice(0xBE26ED, 0x86D830BA, 0xDEBB20E3, n);
    ShiftTwice(0xFFFFFFFF, 0x2DFD1072, 0xBE26ED00, n + n);
    ShiftTwice(0xBE26ED00, 0xBE26ED, 0xDEBB20E3, n + n);
    ShiftTwice(0xFFFFFFFF, 0xBE26ED00, 0xDEBB20E3, n + n + (n + n));
  }

  /** What a register of ones becomes after 32 shifts, complemented. */
  lemma {:induction false} OnesResidue(ones: bv32, n: nat)
    requires ones == 0xFFFFFFFF && n == 32
    ensures Xor(Shifts(Value(ones), n), Value(ones)) == Value(0x2144DF1C)
  {
    ShiftsOfWord(ones, n);
    OnesShifted(4);
    ValueXor(0xDEBB20E3, ones);
  }

  // ---------------------------------------------------------------------------------------------
  // The theorem

  lemma {:induction false} ShiftsAdd(c: nat, m: nat, n: nat)
    ensures Shifts(c, m + n) == Shifts(Shifts(c, m), n)
    decreases m
  {
    if m == 0 {
    } else {
      ShiftsAdd(Shift(c), m - 1, n);
    }
  }

  /** The high part of what is fed may as well come in after the low part has been shifted out. */
  lemma {:induction false} FeedLater(c: nat, low: nat, high: nat, n: nat)
    requires low < Pow2(n)
    ensures Shifts(Xor(c, low + ShiftLeft(high, n)), n) == Xor(Shifts(Xor(c, low), n), high)
  {
    XorDisjoint(low, high, n);
    XorAssociates(c, low, ShiftLeft(high, n));
    ShiftsAreLinear(Xor(c, low), ShiftLeft(high, n), n);
    ShiftsOfHighPart(high, n);
  }

  lemma {:induction false} FeedByteOf(c: nat, v: nat, n: nat)
    requires n == 8
    ensures Xor(Shifts(Xor(c, v % 0x100), n), v / 0x100) == Shifts(Xor(c, v), n)
  {
    ByteShifts(v / 0x100);
    FeedLater(c, v % 0x100, v / 0x100, n);
  }

  lemma {:induction false} FeedFirst(c: nat, v: nat, k: nat)
    requires k > 0
    ensures FeedAll(c, LittleEndian(v, k)) == FeedAll(Feed(c, v % 0x100), LittleEndian(v / 0x100, k - 1))
  {
    assert LittleEndian(v, k)[1..] == LittleEndian(v / 0x100, k - 1);
  }

  /** The shifts of the first byte and those of the others. */
  lemma {:induction false} FeedRest(c: nat, c': nat, v: nat, n: nat, m: nat)
    requires n == 8 && c' == Shifts(Xor(c, v % 0x100), n)
    ensures Shifts(Xor(c', v / 0x100), m) == Shifts(Xor(c, v), n + m)
  {
    FeedByteOf(c, v, n);
    ShiftsAdd(Xor(c, v), n, m);
  }

  /** Feeding the low `k` bytes of a number, low byte first, is feeding them at once. */
  ghost predicate FedAtOnce(c: nat, v: nat, k: nat, m: nat) {
    FeedAll(c, LittleEndian(v, k)) == Shifts(Xor(c, v), m)
  }

  lemma {:induction false} FedNothing(c: nat)
    ensures FedAtOnce(c, 0, 0, 0)
  {
    XorZero(c);
  }

  lemma {:induction false} FedMore(c: nat, v: nat, k: nat, m: nat)
    requires k > 0 && m == 8 * (k - 1) && FedAtOnce(Feed(c, v % 0x100), v / 0x100, k - 1, m)
    ensures FedAtOnce(c, v, k, 8 + m)
  {
    FeedFirst(c, v, k);
    FeedRest(c, Feed(c, v % 0x100), v, 8, m);
  }

  lemma {:induction false} FeedNumber(c: nat, v: nat, k: nat, m: nat)
    requires v < Power256(k) && m == 8 * k
    ensures FedAtOnce(c, v, k, m)
    decreases k
  {
    if k == 0 {
      FedNothing(c);
    } else {
      FeedNumber(Feed(c, v % 0x100), v / 0x100, k - 1, m - 8);
      FedMore(c, v, k, m - 8);
    }
  }

  /** A register that is fed its own complement ends up the same whatever it was. */
  lemma {:induction false} FeedComplement(c: nat, v: nat, ones: nat, k: nat)
    requires v == Xor(c, ones) < Power256(k)
    ensures FeedAll(c, LittleEndian(v, k)) == Shifts(ones, 8 * k)
  {
    FeedNumber(c, v, k, 8 * k);
    XorCommutes(c, ones);
    XorCommutes(c, v);
    XorCancels(ones, c);
  }

  /** The residue of CRC-32, for every message and every start. */
  lemma {:induction false} Residue(start: uint32, m: seq<byte>)
    ensures Crc(start, m + LittleEndian(Crc(start, m), 4)) == 0x2144DF1C
  {
    var k, ones := 4, ONES;
    var c := FeedAll(Xor(start, ones), m);
    CrcFits(start, m);
    assert Power256(4) == 0x1_0000_0000;
    FeedComplement(c, Crc(start, m), ones, k);
    FeedAllConcat(Xor(start, ones), m, LittleEndian(Crc(start, m), k));
    OnesValue();
    ResidueValue();
    OnesResidue(0xFFFFFFFF, 8 * k);
  }

  /** The entry for the top bit of a byte is the polynomial. */
  lemma {:induction false} PolynomialInTable()
    ensures TableEntry(0x80) == 0xEDB88320
  {
    var n := 7;
    ShiftsOfHighPart(1, n);
    assert ShiftLeft(1, 7) == 0x80;
    ShiftsAdd(0x80, n, 1);
    XorZero(POLYNOMIAL);
  }
}
