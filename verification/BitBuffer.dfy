/** BitBuffer and BitBufferWriter (bitbuffer.cc): reading and writing at any bit offset. */
module BitBuffer {
  import opened Bits
  import opened Words
  import G = ExpGolomb

  type Byte = w: Word | |w| == 8 witness [false, false, false, false, false, false, false, false]

  // ---------------------------------------------------------------------------------------------
  // The byte helpers, with the source's masks and shifts

  function LowestBits(b: Byte, count: nat): Word
    requires count <= 8
  {
    And(b, Zeros(8 - count) + Ones(count))
  }

  function HighestBits(b: Byte, count: nat): Word
    requires count <= 8
  {
    var shift := 8 - count;
    Shr(And(b, Shl(Ones(8), shift)), shift)
  }

  function WritePartialByte(source: Byte, count: nat, target: Byte, offset: nat): Byte
    requires offset < 8 && count <= 8 - offset
  {
    var mask := Shr(Shl(Ones(8), 8 - count), offset);
    Or(And(target, Not(mask)), Shr(source, offset))
  }

  lemma {:induction false} LowestBitsAre(b: Byte, count: nat)
    requires count <= 8
    ensures LowestBits(b, count) == Zeros(8 - count) + b[8 - count..]
  {
  }

  lemma {:induction false} HighestBitsAre(b: Byte, count: nat)
    requires count <= 8
    ensures HighestBits(b, count) == Zeros(8 - count) + b[..count]
  {
  }

  /** The top `count` bits of the source replace those of the target at the offset. What the source has
      below them is or-ed into the rest of the byte, so it has to be zero for the rest to stay. */
  lemma {:induction false} WritePartialByteIs(source: Byte, count: nat, target: Byte, offset: nat)
    requires offset < 8 && count <= 8 - offset
    ensures WritePartialByte(source, count, target, offset)
         == target[..offset] + source[..count] + Or(target[offset + count..], source[count..8 - offset])
  {
    var b := WritePartialByte(source, count, target, offset);
    var rest := Or(target[offset + count..], source[count..8 - offset]);
    var e := target[..offset] + source[..count] + rest;
    forall i | 0 <= i < 8 ensures b[i] == e[i] {
      PartialMaskAt(count, offset, i);
      assert b[i] == ((target[i] && !(offset <= i < offset + count)) || (i >= offset && source[i - offset]));
      if i < offset {
        assert e[i] == target[i];
      } else if i < offset + count {
        assert e[i] == source[i - offset];
      } else {
        assert e[i] == rest[i - offset - count];
      }
    }
  }

  /** The mask covers exactly the bits to be overwritten. */
  lemma {:induction false} PartialMaskAt(count: nat, offset: nat, i: nat)
    requires offset < 8 && count <= 8 - offset && i < 8
    ensures Shr(Shl(Ones(8), 8 - count), offset)[i] <==> offset <= i < offset + count
  {
    var high := Shl(Ones(8), 8 - count);
    assert forall k :: 0 <= k < 8 ==> (high[k] <==> k < count);
  }

  lemma {:induction false} WritePartialByteKeeps(source: Byte, count: nat, target: Byte, offset: nat)
    requires offset < 8 && count <= 8 - offset && forall i :: count <= i < 8 - offset ==> !source[i]
    ensures WritePartialByte(source, count, target, offset)
         == target[..offset] + source[..count] + target[offset + count..]
  {
    WritePartialByteIs(source, count, target, offset);
    assert Or(target[offset + count..], source[count..8 - offset]) == target[offset + count..];
  }

  // ---------------------------------------------------------------------------------------------
  // Bytes as one stream of bits

  function Flat(bytes: seq<Byte>): (s: Word)
    ensures |s| == 8 * |bytes|
    decreases |bytes|
  {
    if |bytes| == 0 then [] else bytes[0] + Flat(bytes[1..])
  }

  lemma {:induction false} FlatSplit(bytes: seq<Byte>, i: nat)
    requires i <= |bytes|
    ensures Flat(bytes) == Flat(bytes[..i]) + Flat(bytes[i..])
    decreases i
  {
    if i == 0 {
      assert bytes[..0] == [] && bytes[0..] == bytes;
    } else {
      FlatSplit(bytes[1..], i - 1);
      assert bytes[..i][1..] == bytes[1..][..i - 1];
      assert bytes[i..] == bytes[1..][i - 1..];
    }
  }

  lemma {:induction false} FlatAt(bytes: seq<Byte>, i: nat)
    requires i < |bytes|
    ensures Flat(bytes)[8 * i..8 * i + 8] == bytes[i]
  {
    FlatSplit(bytes, i);
    assert bytes[i..][0] == bytes[i];
  }

  lemma {:induction false} FlatUpdate(bytes: seq<Byte>, i: nat, b: Byte)
    requires i < |bytes|
    ensures Flat(bytes[i := b]) == G.Overwrite(Flat(bytes), 8 * i, b)
  {
    var t := bytes[i := b];
    FlatSplit(bytes, i);
    FlatSplit(t, i);
    assert t[..i] == bytes[..i];
    assert t[i..][1..] == bytes[i..][1..];
  }

  /** Shifting `k` more bits into the low end of a 32-bit word that holds `g`. */
  lemma {:induction false} ShiftIn(g: Word, x: Word)
    requires |g| + |x| <= 32
    ensures Or(Shl(Zeros(32 - |g|) + g, |x|), Zeros(32 - |x|) + x) == Zeros(32 - |g| - |x|) + (g + x)
  {
  }

  /** The part of byte `i` that a slice of the stream covers. */
  lemma {:induction false} SliceOfByte(bytes: seq<Byte>, i: nat, from: nat, to: nat)
    requires i < |bytes| && from <= to <= 8
    ensures Flat(bytes)[8 * i + from..8 * i + to] == bytes[i][from..to]
  {
    FlatAt(bytes, i);
    SliceOfSlice(Flat(bytes), 8 * i, 8, from, to);
  }

  lemma {:induction false} SliceOfSlice(s: Word, a: nat, n: nat, from: nat, to: nat)
    requires from <= to <= n && a + n <= |s|
    ensures s[a..a + n][from..to] == s[a + from..a + to]
  {
    var l, r := s[a..a + n][from..to], s[a + from..a + to];
    forall i | 0 <= i < to - from ensures l[i] == r[i] {
      assert s[a..a + n][from + i] == s[a + from + i];
    }
  }

  lemma {:induction false} SliceConcat(s: Word, a: nat, b: nat, c: nat)
    requires a <= b <= c <= |s|
    ensures s[a..b] + s[b..c] == s[a..c]
  {
  }

  /** The 32-bit word `acc` ends in the bits of `s` from `p` up to `q`, below zeros. */
  ghost predicate Holds(acc: Word, s: Word, p: nat, q: nat)
  {
    p <= q <= |s| && q - p <= 32 && acc == Zeros(32 - (q - p)) + s[p..q]
  }

  lemma {:induction false} HoldsValue(acc: Word, s: Word, p: nat, q: nat)
    requires Holds(acc, s, p, q)
    ensures FromBits(acc) == FromBits(s[p..q])
  {
    LeadingZerosAddNothing(s[p..q], 32 - (q - p));
  }

  lemma {:induction false} HoldsBit(acc: Word, s: Word, p: nat)
    requires Holds(acc, s, p, p + 1)
    ensures acc == Zeros(32) <==> !s[p]
  {
    assert acc[31] == s[p];
    assert !s[p] ==> forall i :: 0 <= i < 32 ==> !acc[i];
  }

  lemma {:induction false} PeekFirst(bytes: seq<Byte>, i: nat, bit: nat)
    requires i < |bytes| && bit < 8
    ensures Holds(Zeros(24) + LowestBits(bytes[i], 8 - bit), Flat(bytes), 8 * i + bit, 8 * i + 8)
  {
    LowestBitsAre(bytes[i], 8 - bit);
    SliceOfByte(bytes, i, bit, 8);
    assert Zeros(24) + Zeros(bit) == Zeros(24 + bit);
    assert Zeros(24) + LowestBits(bytes[i], 8 - bit) == Zeros(24 + bit) + bytes[i][bit..];
    assert bytes[i][bit..] == bytes[i][bit..8];
  }

  lemma {:induction false} PeekWithin(bytes: seq<Byte>, i: nat, bit: nat, count: nat)
    requires i < |bytes| && bit + count < 8
    ensures Holds(Zeros(24) + HighestBits(LowestBits(bytes[i], 8 - bit), bit + count),
                  Flat(bytes), 8 * i + bit, 8 * i + bit + count)
  {
    var low := LowestBits(bytes[i], 8 - bit);
    LowestBitsAre(bytes[i], 8 - bit);
    HighestBitsAre(low, bit + count);
    SliceOfByte(bytes, i, bit, bit + count);
    var w := bytes[i][bit..bit + count];
    assert low[..bit + count] == Zeros(bit) + w;
    assert Zeros(24) + (Zeros(8 - bit - count) + (Zeros(bit) + w)) == Zeros(32 - count) + w;
  }

  lemma {:induction false} HoldsMore(acc: Word, s: Word, p: nat, q: nat, r: nat)
    requires p <= q <= r <= |s| && r - p <= 32 && acc == Zeros(32 - (r - p)) + (s[p..q] + s[q..r])
    ensures Holds(acc, s, p, r)
  {
    SliceConcat(s, p, q, r);
  }

  lemma {:induction false} PeekByte(bytes: seq<Byte>, acc: Word, p: nat, i: nat)
    requires i < |bytes| && Holds(acc, Flat(bytes), p, 8 * i) && 8 * i + 8 - p <= 32
    ensures Holds(Or(Shl(acc, 8), Zeros(24) + bytes[i]), Flat(bytes), p, 8 * i + 8)
  {
    var s, q := Flat(bytes), 8 * i;
    ShiftIn(s[p..q], bytes[i]);
    FlatAt(bytes, i);
    HoldsMore(Or(Shl(acc, 8), Zeros(24) + bytes[i]), s, p, q, q + 8);
  }

  lemma {:induction false} HoldsHigh(acc: Word, s: Word, p: nat, q: nat, high: Word, k: nat)
    requires Holds(acc, s, p, q) && k <= 8 && q + k <= |s| && q + k - p <= 32 && high == Zeros(8 - k) + s[q..q + k]
    ensures Holds(Or(Shl(acc, k), Zeros(24) + high), s, p, q + k)
  {
    var g, x := s[p..q], s[q..q + k];
    assert Zeros(24) + high == Zeros(32 - k) + x;
    ShiftIn(g, x);
    HoldsMore(Or(Shl(acc, k), Zeros(24) + high), s, p, q, q + k);
  }

  lemma {:induction false} PeekLast(bytes: seq<Byte>, acc: Word, p: nat, i: nat, k: nat)
    requires i < |bytes| && Holds(acc, Flat(bytes), p, 8 * i) && k <= 8 && 8 * i + k - p <= 32
    ensures Holds(Or(Shl(acc, k), Zeros(24) + HighestBits(bytes[i], k)), Flat(bytes), p, 8 * i + k)
  {
    var high := HighestBits(bytes[i], k);
    HighestBitsAre(bytes[i], k);
    SliceOfByte(bytes, i, 0, k);
    assert bytes[i][0..k] == bytes[i][..k];
    HoldsHigh(acc, Flat(bytes), p, 8 * i, high, k);
  }

  /** Reading the bits a write has put down gives back the value, whatever surrounds them. */
  lemma {:induction false} FieldRoundTrip(acc: Word, s: Word, p: nat, v: nat, n: nat)
    requires n <= 32 && v < Pow2(n) && p + n <= |s|
    requires Holds(acc, G.Overwrite(s, p, ToBits(v, n)), p, p + n)
    ensures FromBits(acc) == v
  {
    var t := G.Overwrite(s, p, ToBits(v, n));
    HoldsValue(acc, t, p, p + n);
    assert t[p..p + n] == ToBits(v, n);
    FromToBits(v, n);
  }

  /** The word read after `z` leading zeros at `p` is what the code there stands for. */
  lemma {:induction false} HoldsCode(acc: Word, s: Word, p: nat, z: nat)
    requires p + z < |s| && s[p + z] && z < 32 && Holds(acc, s, p + z, p + z + z + 1)
    requires G.LeadingZeros(s[p..]) == z
    ensures FromBits(acc) > 0 && G.Read(s[p..]) == G.Value(FromBits(acc) - 1, z + z + 1)
  {
    var w := s[p + z..p + z + z + 1];
    HoldsValue(acc, s, p + z, p + z + z + 1);
    assert w[0] == s[p + z];
    G.FromBitsOfTopBit(w);
    assert s[p..][z..z + z + 1] == w;
    G.ReadWord(s[p..], z, w);
  }

  // ---------------------------------------------------------------------------------------------
  // Writing, as changes to the stream

  /** Writing a byte that differs only from bit `off` on, for `|w|` bits, overwrites those bits. */
  lemma {:induction false} OverwriteInByte(bytes: seq<Byte>, i: nat, off: nat, w: Word, b: Byte)
    requires i < |bytes| && off + |w| <= 8 && b == bytes[i][..off] + w + bytes[i][off + |w|..]
    ensures Flat(bytes[i := b]) == G.Overwrite(Flat(bytes), 8 * i + off, w)
  {
    FlatUpdate(bytes, i, b);
    var s, q := Flat(bytes), 8 * i;
    SliceOfByte(bytes, i, 0, off);
    SliceOfByte(bytes, i, off + |w|, 8);
    assert s[..q] + s[q..q + off] == s[..q + off];
    assert s[q + off + |w|..q + 8] + s[q + 8..] == s[q + off + |w|..];
    assert b == s[q..q + off] + w + s[q + off + |w|..q + 8];
    Regroup(s[..q], s[q..q + off], w, s[q + off + |w|..q + 8], s[q + 8..]);
  }

  lemma {:induction false} Regroup(a: Word, b: Word, w: Word, c: Word, d: Word)
    ensures a + (b + w + c) + d == (a + b) + w + (c + d)
  {
  }

  /** The top byte of a 64-bit word that holds `w` in its highest bits, written at bit `off`. */
  lemma {:induction false} PartialWrite(bytes: seq<Byte>, i: nat, off: nat, top: Word, w: Word, count: nat)
    requires i < |bytes| && off < 8 && |top| == 64 && |w| <= 64 && top == w + Zeros(64 - |w|)
    requires count == (if |w| <= 8 - off then |w| else 8 - off)
    ensures Flat(bytes[i := WritePartialByte(top[..8], count, bytes[i], off)])
            == G.Overwrite(Flat(bytes), 8 * i + off, w[..count])
  {
    assert forall k :: count <= k < 8 - off ==> top[..8][k] == top[k];
    WritePartialByteKeeps(top[..8], count, bytes[i], off);
    assert top[..8][..count] == w[..count];
    OverwriteInByte(bytes, i, off, w[..count], WritePartialByte(top[..8], count, bytes[i], off));
  }

  lemma {:induction false} ByteWrite(bytes: seq<Byte>, i: nat, top: Word, w: Word)
    requires i < |bytes| && |top| == 64 && 8 <= |w| <= 64 && top == w + Zeros(64 - |w|)
    ensures Flat(bytes[i := top[..8]]) == G.Overwrite(Flat(bytes), 8 * i, w[..8])
  {
    assert top[..8] == w[..8];
    FlatUpdate(bytes, i, top[..8]);
  }

  /** The first `done` bits of `w` have replaced those of `s` at `p`, giving `t`. */
  ghost predicate Written(t: Word, s: Word, p: nat, w: Word, done: nat)
  {
    p + |w| <= |s| && done <= |w| && t == G.Overwrite(s, p, w[..done])
  }

  /** The 64-bit word `top` has the rest of `w` in its highest bits. */
  ghost predicate Pending(top: Word, w: Word, done: nat)
  {
    done <= |w| <= 64 && |top| == 64 && top == w[done..] + Zeros(64 - (|w| - done))
  }

  lemma {:induction false} ShiftOut(top: Word, w: Word, done: nat, k: nat)
    requires Pending(top, w, done) && done + k <= |w|
    ensures Pending(Shl(top, k), w, done + k)
  {
    assert w[done..][k..] == w[done + k..];
  }

  lemma {:induction false} WrittenMore(t: Word, u: Word, s: Word, p: nat, w: Word, done: nat, k: nat)
    requires Written(t, s, p, w, done) && done + k <= |w| && u == G.Overwrite(t, p + done, w[done..][..k])
    ensures Written(u, s, p, w, done + k)
  {
    assert w[..done] + w[done..][..k] == w[..done + k];
    G.OverwriteTwice(s, p, w[..done], w[done..][..k]);
  }

  lemma {:induction false} WrittenAll(t: Word, s: Word, p: nat, w: Word)
    requires Written(t, s, p, w, |w|)
    ensures t == G.Overwrite(s, p, w)
  {
    assert w[..|w|] == w;
  }

  lemma {:induction false} WrittenNone(s: Word, p: nat, w: Word)
    requires p + |w| <= |s|
    ensures Written(s, s, p, w, 0)
  {
  }

  /** Pushing the low `n` bits of a 64-bit value to the top. */
  lemma {:induction false} LeftAlign(v: nat, n: nat)
    requires n <= 64
    ensures Pending(Shl(ToBits(v, 64), 64 - n), ToBits(v, n), 0)
  {
    LowBits(v, n, 64 - n);
    assert ToBits(v, n)[0..] == ToBits(v, n);
  }

  /** Reading `k` values from `p` on succeeds with `vs` and ends at `q`, or fails. */
  ghost predicate ReadsList(s: Word, p: nat, k: nat, ok: bool, vs: seq<nat>, q: nat) {
    && p <= |s| && q <= |s|
    && var r := G.ReadAll(s[p..], k);
       ok == r.Values? && (ok ==> vs == r.values && s[q..] == r.left)
  }

  lemma {:induction false} ReadsNone(s: Word, p: nat)
    requires p <= |s|
    ensures ReadsList(s, p, 0, true, [], p)
  {
  }

  lemma {:induction false} ReadsNoMore(s: Word, p: nat, k: nat)
    requires p <= |s| && G.Read(s[p..]).Failed? && k > 0
    ensures ReadsList(s, p, k, false, [], p)
  {
  }

  lemma {:induction false} ReadsOneMore(s: Word, p: nat, q: nat, k: nat, first: G.Reading, ok: bool, vs: seq<nat>, end: nat)
    requires p <= |s| && first == G.Read(s[p..]) && first.Value? && q == p + first.length && k > 0
    requires ReadsList(s, q, k - 1, ok, vs, end)
    ensures ReadsList(s, p, k, ok, [first.value] + vs, end)
  {
    assert s[p..][first.length..] == s[q..];
  }

  class BitBufferWriter {
    const bytes: array<Byte>
    var byteOffset: nat
    var bitOffset: nat

    ghost predicate Valid()
      reads this
    {
      bitOffset < 8 && (byteOffset < bytes.Length || (byteOffset == bytes.Length && bitOffset == 0))
    }

    /** All bits of the buffer. */
    ghost function Stream(): Word
      reads bytes
    {
      Flat(bytes[..])
    }

    ghost function Position(): nat
      reads this
    {
      8 * byteOffset + bitOffset
    }

    constructor (bytes: array<Byte>)
      ensures this.bytes == bytes && Valid() && Position() == 0
    {
      this.bytes := bytes;
      byteOffset, bitOffset := 0, 0;
    }

    function RemainingBitCount(): (n: nat)
      requires Valid()
      reads this
      ensures n == 8 * bytes.Length - Position()
    {
      (bytes.Length - byteOffset) * 8 - bitOffset
    }

    /** The next `count` bits as a 32-bit word, without moving. */
    method PeekBits(count: nat) returns (ok: bool, val: Word)
      requires Valid() && (count > 0 || byteOffset < bytes.Length)
      ensures ok <==> count <= RemainingBitCount() && count <= 32
      ensures ok ==> Holds(val, Stream(), Position(), Position() + count)
    {
      if count > RemainingBitCount() || count > 32 {
        return false, [];
      }
      ok := true;
      if count < 8 - bitOffset {
        val := PeekInByte(count);
      } else {
        val := PeekAcrossBytes(count);
      }
    }

    /** The wanted bits all lie in the current byte. */
    method PeekInByte(count: nat) returns (bits: Word)
      requires Valid() && byteOffset < bytes.Length && bitOffset + count < 8
      ensures Holds(bits, Stream(), Position(), Position() + count)
    {
      PeekWithin(bytes[..], byteOffset, bitOffset, count);
      bits := Zeros(24) + HighestBits(LowestBits(bytes[byteOffset], 8 - bitOffset), bitOffset + count);
    }

    /** The rest of the current byte. */
    method PeekFirstByte() returns (bits: Word)
      requires Valid() && byteOffset < bytes.Length
      ensures Holds(bits, Stream(), Position(), 8 * byteOffset + 8)
    {
      PeekFirst(bytes[..], byteOffset, bitOffset);
      bits := Zeros(24) + LowestBits(bytes[byteOffset], 8 - bitOffset);
    }

    method ShiftInByte(bits: Word, cursor: nat, ghost p: nat) returns (next: Word)
      requires cursor < bytes.Length && Holds(bits, Stream(), p, 8 * cursor) && 8 * cursor + 8 - p <= 32
      ensures Holds(next, Stream(), p, 8 * cursor + 8)
    {
      PeekByte(bytes[..], bits, p, cursor);
      next := Or(Shl(bits, 8), Zeros(24) + bytes[cursor]);
    }

    method ShiftInBits(bits: Word, cursor: nat, count: nat, ghost p: nat) returns (next: Word)
      requires cursor < bytes.Length && Holds(bits, Stream(), p, 8 * cursor)
      requires count <= 8 && 8 * cursor + count - p <= 32
      ensures Holds(next, Stream(), p, 8 * cursor + count)
    {
      PeekLast(bytes[..], bits, p, cursor, count);
      next := Or(Shl(bits, count), Zeros(24) + HighestBits(bytes[cursor], count));
    }

    /** The rest of the current byte, whole bytes, and the last partial byte. */
    method PeekAcrossBytes(count: nat) returns (bits: Word)
      requires Valid() && 8 - bitOffset <= count <= 32 && count <= RemainingBitCount()
      ensures Holds(bits, Stream(), Position(), Position() + count)
    {
      ghost var p := Position();
      var left, cursor := count - (8 - bitOffset), byteOffset + 1;
      bits := PeekFirstByte();
      while left >= 8
        invariant 0 <= left && p + count == 8 * cursor + left
        invariant Holds(bits, Stream(), p, 8 * cursor)
        decreases left
      {
        bits := ShiftInByte(bits, cursor, p);
        cursor, left := cursor + 1, left - 8;
      }
      if left > 0 {
        bits := ShiftInBits(bits, cursor, left, p);
      }
    }

    method ConsumeBits(count: nat) returns (ok: bool)
      requires Valid()
      modifies this
      ensures Valid()
      ensures ok <==> count <= old(RemainingBitCount())
      ensures Position() == old(Position()) + if ok then count else 0
    {
      if count > RemainingBitCount() {
        return false;
      }
      byteOffset, bitOffset := byteOffset + (bitOffset + count) / 8, (bitOffset + count) % 8;
      ok := true;
    }

    method ReadBits(count: nat) returns (ok: bool, val: Word)
      requires Valid() && (count > 0 || byteOffset < bytes.Length)
      modifies this
      ensures Valid()
      ensures ok <==> count <= old(RemainingBitCount()) && count <= 32
      ensures Position() == old(Position()) + if ok then count else 0
      ensures ok ==> Holds(val, Stream(), old(Position()), Position())
    {
      ok, val := PeekBits(count);
      if ok {
        ok := ConsumeBits(count);
      }
    }

    method Seek(toByte: nat, toBit: nat) returns (ok: bool)
      requires Valid()
      modifies this
      ensures Valid()
      ensures ok <==> !(toByte > bytes.Length || toBit > 7 || (toByte == bytes.Length && toBit > 0))
      ensures if ok then byteOffset == toByte && bitOffset == toBit else unchanged(this)
    {
      if toByte > bytes.Length || toBit > 7 || (toByte == bytes.Length && toBit > 0) {
        return false;
      }
      byteOffset, bitOffset := toByte, toBit;
      ok := true;
    }

    /** The bits after the leading zeros of a code that starts at `p`. */
    method ReadAfterZeros(zeros: nat, ghost p: nat) returns (r: G.Reading)
      requires Valid() && Position() == p + zeros && zeros == G.LeadingZeros(Stream()[p..])
      modifies this
      ensures Valid() && r == G.Read(Stream()[p..])
      ensures Position() == if r.Value? then p + r.length else old(Position())
    {
      ghost var s := Stream();
      var ok, val := false, [];
      if zeros + 1 <= 32 {
        ok, val := ReadBits(zeros + 1);
      }
      if !ok {
        return G.Failed;
      }
      assert s[p..][zeros] == s[p + zeros];
      HoldsCode(val, s, p, zeros);
      r := G.Value(FromBits(val) - 1, zeros + (zeros + 1));
    }

    /** All or nothing: the value of the code at the current position, moving past it, or a failure
        that moves nothing. */
    method ReadExponentialGolomb() returns (r: G.Reading)
      requires Valid()
      modifies this
      ensures Valid()
      ensures r == G.Read(Stream()[old(Position())..])
      ensures Position() == old(Position()) + if r.Value? then r.length else 0
    {
      var originalByteOffset, originalBitOffset := byteOffset, bitOffset;
      ghost var p := Position();
      var zeros := CountLeadingZeros();
      r := ReadAfterZeros(zeros, p);
      if r.Failed? {
        var restored := Seek(originalByteOffset, originalBitOffset);
        assert restored;
      }
    }

    method NextBitIsZero() returns (zero: bool)
      requires Valid()
      ensures zero <==> Position() < |Stream()| && !Stream()[Position()]
    {
      var ok, bit := PeekBits(1);
      if ok {
        HoldsBit(bit, Stream(), Position());
      }
      zero := ok && bit == Zeros(32);
    }

    method CountLeadingZeros() returns (zeros: nat)
      requires Valid()
      modifies this
      ensures Valid() && zeros == G.LeadingZeros(Stream()[old(Position())..])
      ensures Position() == old(Position()) + zeros
    {
      zeros := 0;
      ghost var p, s := Position(), Stream();
      var zero := NextBitIsZero();
      while zero
        invariant Valid() && Position() == p + zeros <= |s| && Stream() == s
        invariant forall i :: p <= i < p + zeros ==> !s[i]
        invariant zero <==> p + zeros < |s| && !s[p + zeros]
        decreases |s| - p - zeros
      {
        zeros := zeros + 1;
        var consumed := ConsumeBits(1);
        zero := NextBitIsZero();
      }
      LeadingZerosFrom(s, p, zeros);
    }

    method ReadSignedExponentialGolomb() returns (ok: bool, val: int)
      requires Valid()
      modifies this
      ensures Valid()
      ensures var r := G.Read(Stream()[old(Position())..]);
              && (ok <==> r.Value?)
              && (ok ==> val == G.ToSigned(r.value) && G.Representable(val))
              && Position() == old(Position()) + if ok then r.length else 0
    {
      ghost var s := Stream()[Position()..];
      var r := ReadExponentialGolomb();
      if r.Failed? {
        return false, 0;
      }
      G.ReadIsCode(s, r.value, r.length);
      ok := true;
      if r.value % 2 == 0 {
        val := -(r.value / 2);
      } else {
        val := (r.value + 1) / 2;
      }
    }

    /** A partial byte of a write that has put down `done` bits of `w` so far. */
    method WriteHighest(top: Word, count: nat, i: nat, off: nat, ghost s: Word, ghost p: nat, ghost w: Word, ghost done: nat)
      returns (next: Word)
      requires i < bytes.Length && off < 8 && Pending(top, w, done)
      requires Written(Stream(), s, p, w, done) && p + done == 8 * i + off
      requires count == if |w| - done <= 8 - off then |w| - done else 8 - off
      modifies bytes
      ensures Written(Stream(), s, p, w, done + count) && Pending(next, w, done + count)
    {
      ghost var t := Stream();
      PartialWrite(bytes[..], i, off, top, w[done..], count);
      ghost var updated := bytes[..][i := WritePartialByte(top[..8], count, bytes[i], off)];
      bytes[i] := WritePartialByte(top[..8], count, bytes[i], off);
      assert bytes[..] == updated;
      WrittenMore(t, Stream(), s, p, w, done, count);
      ShiftOut(top, w, done, count);
      next := Shl(top, count);
    }

    /** A whole byte of such a write. */
    method WriteHighestByte(top: Word, i: nat, ghost s: Word, ghost p: nat, ghost w: Word, ghost done: nat)
      returns (next: Word)
      requires i < bytes.Length && Pending(top, w, done) && done + 8 <= |w|
      requires Written(Stream(), s, p, w, done) && p + done == 8 * i
      modifies bytes
      ensures Written(Stream(), s, p, w, done + 8) && Pending(next, w, done + 8)
    {
      ghost var t := Stream();
      ByteWrite(bytes[..], i, top, w[done..]);
      ghost var updated := bytes[..][i := top[..8]];
      bytes[i] := top[..8];
      assert bytes[..] == updated;
      WrittenMore(t, Stream(), s, p, w, done, 8);
      ShiftOut(top, w, done, 8);
      next := Shl(top, 8);
    }

    /** The low `count` bits of `val` replace the next bits of the stream, and nothing else. */
    method WriteBits(val: nat, count: nat) returns (ok: bool)
      requires Valid() && 1 <= count && (count <= 64 || count > RemainingBitCount())
      modifies this, bytes
      ensures Valid()
      ensures ok <==> count <= old(RemainingBitCount())
      ensures Position() == old(Position()) + if ok then count else 0
      ensures Stream() == if ok then G.Overwrite(old(Stream()), old(Position()), ToBits(val, count)) else old(Stream())
    {
      if count > RemainingBitCount() {
        return false;
      }
      WriteLowBits(val, count);
      ok := ConsumeBits(count);
    }

    /** The low bits pushed to the top of a 64-bit word. */
    method Align(val: nat, count: nat) returns (top: Word)
      requires Valid() && count <= 64 && count <= RemainingBitCount()
      ensures Pending(top, ToBits(val, count), 0)
      ensures Written(Stream(), Stream(), Position(), ToBits(val, count), 0)
    {
      LeftAlign(val, count);
      WrittenNone(Stream(), Position(), ToBits(val, count));
      top := Shl(ToBits(val, 64), 64 - count);
    }

    method WriteLowBits(val: nat, count: nat)
      requires Valid() && 1 <= count <= 64 && count <= RemainingBitCount()
      modifies bytes
      ensures Stream() == G.Overwrite(old(Stream()), Position(), ToBits(val, count))
    {
      ghost var s, p, w := Stream(), Position(), ToBits(val, count);
      var top := Align(val, count);
      var first := if count <= 8 - bitOffset then count else 8 - bitOffset;
      top := WriteHighest(top, first, byteOffset, bitOffset, s, p, w, 0);
      if count > 8 - bitOffset {
        WriteRest(top, byteOffset + 1, count - first, s, p, w, first);
      }
      WrittenAll(Stream(), s, p, w);
    }

    /** The whole bytes and the last partial byte of a write. */
    method WriteRest(first: Word, at: nat, count: nat, ghost s: Word, ghost p: nat, ghost w: Word, ghost start: nat)
      requires start + count == |w| && Pending(first, w, start) && Written(Stream(), s, p, w, start)
      requires p + start == 8 * at && |s| == 8 * bytes.Length
      modifies bytes
      ensures Written(Stream(), s, p, w, |w|)
    {
      var top, i, left := first, at, count;
      ghost var done := start;
      while left >= 8
        invariant done + left == |w| && p + done == 8 * i && left >= 0
        invariant Pending(top, w, done)
        invariant Written(Stream(), s, p, w, done)
        decreases left
      {
        top := WriteHighestByte(top, i, s, p, w, done);
        i, left, done := i + 1, left - 8, done + 8;
      }
      if left > 0 {
        top := WriteHighest(top, left, i, 0, s, p, w, done);
      }
    }

    method CountBits(val: nat) returns (count: nat)
      ensures count == G.CountBits(val)
    {
      count := 0;
      var v := val;
      while v != 0
        invariant count + G.CountBits(v) == G.CountBits(val)
      {
        count := count + 1;
        v := v / 2;
      }
    }

    /** WriteBits, for a word known by another name. */
    method WriteWord(val: nat, count: nat, ghost w: Word) returns (ok: bool)
      requires Valid() && 1 <= count <= 64 && |w| == count && w == ToBits(val, count)
      modifies this, bytes
      ensures Valid()
      ensures ok <==> |w| <= old(RemainingBitCount())
      ensures Position() == old(Position()) + if ok then |w| else 0
      ensures Stream() == if ok then G.Overwrite(old(Stream()), old(Position()), w) else old(Stream())
    {
      ok := WriteBits(val, count);
    }

    /** All or nothing: the code of `val` at the current position. */
    method WriteExponentialGolomb(val: nat) returns (ok: bool)
      requires Valid() && val <= G.UINT32_MAX
      modifies this, bytes
      ensures Valid()
      ensures ok <==> val != G.UINT32_MAX && |G.Code(val)| <= old(RemainingBitCount())
      ensures Position() == old(Position()) + if ok then |G.Code(val)| else 0
      ensures Stream() == if ok then G.Overwrite(old(Stream()), old(Position()), G.Code(val)) else old(Stream())
    {
      if val == G.UINT32_MAX {
        return false;
      }
      G.CodeIsLowBits(val);
      var count := CountBits(val + 1);
      ok := WriteWord(val + 1, count + count - 1, G.Code(val));
    }

    method WriteSignedExponentialGolomb(val: int) returns (ok: bool)
      requires Valid() && -G.INT32_MAX - 1 <= val <= G.INT32_MAX
      modifies this, bytes
      ensures Valid()
      ensures var code := G.Code(G.ToUnsigned(val));
              && (ok <==> G.Representable(val) && |code| <= old(RemainingBitCount()))
              && Position() == old(Position()) + (if ok then |code| else 0)
              && Stream() == if ok then G.Overwrite(old(Stream()), old(Position()), code) else old(Stream())
    {
      if val == 0 {
        ok := WriteExponentialGolomb(0);
      } else if val > 0 {
        ok := WriteExponentialGolomb(val + val - 1);
      } else if val == -G.INT32_MAX - 1 {
        ok := false;
      } else {
        ok := WriteExponentialGolomb(-val - val);
      }
    }

    /** Values written one after the other, until there is no room. */
    method WriteValues(vs: seq<nat>) returns (ok: bool)
      requires Valid() && G.Encodable(vs)
      modifies this, bytes
      ensures Valid() && (ok <==> |G.Codes(vs)| <= old(RemainingBitCount()))
      ensures ok ==> Position() == old(Position()) + |G.Codes(vs)|
                     && Stream() == G.WriteAll(old(Stream()), old(Position()), vs)
      decreases |vs|
    {
      if vs == [] {
        return true;
      }
      ok := WriteExponentialGolomb(vs[0]);
      if ok {
        ok := WriteValues(vs[1..]);
      }
    }

    method ReadValues(k: nat, ghost s: Word) returns (ok: bool, vs: seq<nat>)
      requires Valid() && s == Stream()
      modifies this
      ensures Valid() && ReadsList(s, old(Position()), k, ok, vs, Position())
      decreases k
    {
      ghost var p := Position();
      if k == 0 {
        ReadsNone(s, p);
        return true, [];
      }
      var first := ReadExponentialGolomb();
      ghost var q := Position();
      if first.Failed? {
        ReadsNoMore(s, p, k);
        return false, [];
      }
      var rest;
      ok, rest := ReadValues(k - 1, s);
      ReadsOneMore(s, p, q, k, first, ok, rest, Position());
      vs := [first.value] + rest;
    }

    /** A list written from any offset is read back from there, ending at the same offset. */
    method WriteThenRead(vs: seq<nat>) returns (ok: bool, us: seq<nat>)
      requires Valid() && G.Encodable(vs)
      modifies this, bytes
      ensures Valid() && (ok <==> |G.Codes(vs)| <= old(RemainingBitCount()))
      ensures ok ==> us == vs && Position() == old(Position()) + |G.Codes(vs)|
    {
      us := [];
      var fromByte, fromBit := byteOffset, bitOffset;
      ghost var p, s := Position(), Stream();
      ok := WriteValues(vs);
      if ok {
        G.RoundTrip(s, p, vs);
        ghost var end := Position();
        var back := Seek(fromByte, fromBit);
        ok, us := ReadValues(|vs|, Stream());
        assert ok && |Stream()[Position()..]| == |Stream()[end..]|;
      }
    }
  }

  lemma {:induction false} LeadingZerosFrom(s: Word, p: nat, z: nat)
    requires p + z <= |s| && (forall i :: p <= i < p + z ==> !s[i]) && (p + z < |s| ==> s[p + z])
    ensures G.LeadingZeros(s[p..]) == z
  {
    var t := s[p..];
    var y := G.LeadingZeros(t);
    assert y < |t| ==> t[y] == s[p + y];
    assert z < |t| ==> t[z] == s[p + z];
    assert forall i :: 0 <= i < z ==> t[i] == s[p + i];
  }
}
