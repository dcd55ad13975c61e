/** Big- and little-endian integers in memory (byteorder.h). */
module ByteOrder {

  type byte = x: int | 0 <= x < 0x100

  function Power256(k: nat): (p: nat)
    ensures p > 0
  {
    if k == 0 then 1 else 0x100 * Power256(k - 1)
  }

  /** The low `k` bytes of `v`, least significant first. */
  function LittleEndian(v: nat, k: nat): (s: seq<byte>)
    ensures |s| == k
    decreases k
  {
    if k == 0 then [] else [v % 0x100] + LittleEndian(v / 0x100, k - 1)
  }

  /** The low `k` bytes of `v`, most significant first. */
  function BigEndian(v: nat, k: nat): (s: seq<byte>)
    ensures |s| == k
    decreases k
  {
    if k == 0 then [] else BigEndian(v / 0x100, k - 1) + [v % 0x100]
  }

  function FromLittleEndian(s: seq<byte>): nat
    decreases |s|
  {
    if s == [] then 0 else s[0] + 0x100 * FromLittleEndian(s[1..])
  }

  function FromBigEndian(s: seq<byte>): nat
    decreases |s|
  {
    if s == [] then 0 else 0x100 * FromBigEndian(s[..|s| - 1]) + s[|s| - 1]
  }

  lemma {:induction false} LittleEndianRoundTrip(v: nat, k: nat)
    requires v < Power256(k)
    ensures FromLittleEndian(LittleEndian(v, k)) == v
    decreases k
  {
    if k == 0 {
    } else {
      LittleEndianRoundTrip(v / 0x100, k - 1);
      assert LittleEndian(v, k)[1..] == LittleEndian(v / 0x100, k - 1);
    }
  }

  lemma {:induction false} BigEndianRoundTrip(v: nat, k: nat)
    requires v < Power256(k)
    ensures FromBigEndian(BigEndian(v, k)) == v
    decreases k
  {
    if k == 0 {
    } else {
      BigEndianRoundTrip(v / 0x100, k - 1);
      assert BigEndian(v, k)[..k - 1] == BigEndian(v / 0x100, k - 1);
    }
  }

  /** Every byte string is the encoding of the value read from it, which therefore fits. */
  lemma {:induction false} BigEndianIsOnto(s: seq<byte>)
    ensures FromBigEndian(s) < Power256(|s|)
    ensures BigEndian(FromBigEndian(s), |s|) == s
    decreases |s|
  {
    if s == [] {
    } else {
      var front, last := s[..|s| - 1], s[|s| - 1];
      BigEndianIsOnto(front);
      assert FromBigEndian(s) / 0x100 == FromBigEndian(front) && FromBigEndian(s) % 0x100 == last;
      assert s == front + [last];
    }
  }

  /** What is stored of a value that may not fit is not more than the value. */
  lemma {:induction false} BigEndianIsLow(v: nat, k: nat)
    ensures FromBigEndian(BigEndian(v, k)) <= v
    decreases k
  {
    if k == 0 {
    } else {
      BigEndianIsLow(v / 0x100, k - 1);
      assert BigEndian(v, k)[..k - 1] == BigEndian(v / 0x100, k - 1);
    }
  }

  /** Swapping the byte order is reversing the bytes. */
  lemma {:induction false} OrdersAreReversed(v: nat, k: nat, i: nat)
    requires i < k
    ensures LittleEndian(v, k)[i] == BigEndian(v, k)[k - 1 - i]
    decreases k
  {
    if i == 0 {
    } else {
      OrdersAreReversed(v / 0x100, k - 1, i - 1);
    }
  }

  /** `v >> (8 * n)`. */
  function ShiftRightBytes(v: nat, n: nat): nat
    decreases n
  {
    if n == 0 then v else ShiftRightBytes(v / 0x100, n - 1)
  }

  /** Byte `i` is the one the source stores there: the value shifted right and truncated. */
  lemma {:induction false} BigEndianAt(v: nat, k: nat, i: nat)
    requires i < k
    ensures BigEndian(v, k)[i] == ShiftRightBytes(v, k - 1 - i) % 0x100
    decreases k
  {
    if i == k - 1 {
    } else {
      BigEndianAt(v / 0x100, k - 1, i);
    }
  }
}
