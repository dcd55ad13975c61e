/** Exponential Golomb codes (bitbuffer.cc; clauses 9.1 and 9.1.1 of ITU-T H.264) on bit strings:
    what is written for a value and what is read from a stream. */
module ExpGolomb {
  import opened Bits
  import opened Words

  const UINT32_MAX: nat := 0xFFFFFFFF
  const INT32_MAX: int := 0x7FFFFFFF

  /** The outcome of a read: the value and the number of bits it took. */
  datatype Reading = Failed | Value(value: nat, length: nat)

  /** The outcome of reading a list: the values and the bits after them. */
  datatype ListReading = ListFailed | Values(values: seq<nat>, left: Word)

  // ---------------------------------------------------------------------------------------------
  // Codes

  /** The number of bits in the binary representation. */
  function CountBits(v: nat): nat {
    if v == 0 then 0 else 1 + CountBits(v / 2)
  }

  lemma {:induction false} CountBitsBounds(v: nat)
    ensures v < Pow2(CountBits(v))
    ensures v > 0 ==> CountBits(v) > 0 && Pow2(CountBits(v) - 1) <= v
    decreases v
  {
    if v == 0 {
    } else {
      CountBitsBounds(v / 2);
    }
  }

  /** There is only one number of bits between whose powers of two a value lies. */
  lemma {:induction false} CountBitsIsUnique(v: nat, n: nat)
    requires n > 0 && Pow2(n - 1) <= v < Pow2(n)
    ensures CountBits(v) == n
  {
    CountBitsBounds(v);
    if CountBits(v) < n {
      PowerGrows(CountBits(v), n - 1);
    } else if CountBits(v) > n {
      PowerGrows(n, CountBits(v) - 1);
    }
  }

  /** The code of `v`: the bits of v + 1, after one zero fewer than there are bits. */
  function Code(v: nat): Word {
    var n := CountBits(v + 1);
    Zeros(n - 1) + ToBits(v + 1, n)
  }

  function Codes(vs: seq<nat>): Word {
    if |vs| == 0 then [] else Code(vs[0]) + Codes(vs[1..])
  }

  /** The top bit of a number's shortest representation is set. */
  lemma {:induction false} TopBit(v: nat, n: nat)
    requires n > 0 && Pow2(n - 1) <= v < Pow2(n)
    ensures ToBits(v, n)[0]
    decreases n
  {
    if n == 1 {
    } else {
      TopBit(v / 2, n - 1);
    }
  }

  /** What WriteExponentialGolomb hands to WriteBits is the code: 2n - 1 low bits of v + 1. */
  lemma {:induction false} CodeIsLowBits(v: nat)
    requires v < UINT32_MAX
    ensures var n := CountBits(v + 1);
            1 <= n <= 32 && |Code(v)| == n + n - 1 && Code(v) == ToBits(v + 1, n + n - 1)
  {
    var n := CountBits(v + 1);
    CountBitsBounds(v + 1);
    HighBitsAreZero(v + 1, n, n - 1);
    WordSize();
    if n > 32 { PowerGrows(32, n - 1); }
  }

  // ---------------------------------------------------------------------------------------------
  // Reading

  function LeadingZeros(s: Word): (z: nat)
    ensures z <= |s|
    ensures forall i :: 0 <= i < z ==> !s[i]
    ensures z < |s| ==> s[z]
  {
    if s == [] || s[0] then 0 else 1 + LeadingZeros(s[1..])
  }

  /** The value of the code at the start of `s` and its length. */
  function Read(s: Word): Reading {
    var z := LeadingZeros(s);
    if z + 1 > 32 || |s| < z + z + 1 then Failed
    else
      FromBitsOfTopBit(s[z..z + z + 1]);
      Value(FromBits(s[z..z + z + 1]) - 1, z + z + 1)
  }

  lemma {:induction false} FromBitsOfTopBit(w: Word)
    requires w != [] && w[0]
    ensures Pow2(|w| - 1) <= FromBits(w) < Pow2(|w|)
    decreases |w|
  {
    ToFromBits(w);
    if |w| == 1 {
    } else {
      FromBitsOfTopBit(w[..|w| - 1]);
    }
  }

  lemma {:induction false} CodeShape(v: nat, n: nat)
    requires v < UINT32_MAX && n == CountBits(v + 1)
    ensures 1 <= n <= 32 && |Code(v)| == n + n - 1
    ensures (forall i :: 0 <= i < n - 1 ==> !Code(v)[i]) && Code(v)[n - 1]
    ensures Code(v)[n - 1..] == ToBits(v + 1, n)
  {
    CodeIsLowBits(v);
    CountBitsBounds(v + 1);
    TopBit(v + 1, n);
  }

  lemma {:induction false} LeadingZerosAre(s: Word, z: nat)
    requires z < |s| && s[z] && forall i :: 0 <= i < z ==> !s[i]
    ensures LeadingZeros(s) == z
  {
  }

  lemma {:induction false} ReadWord(s: Word, z: nat, w: Word)
    requires z == LeadingZeros(s) && z < 32 && z + z + 1 <= |s|
    requires w == s[z..z + z + 1] && FromBits(w) > 0
    ensures Read(s) == Value(FromBits(w) - 1, z + z + 1)
  {
  }

  lemma {:induction false} ReadShape(c: Word, t: Word, n: nat)
    requires 1 <= n <= 32 && |c| == n + n - 1 && c[n - 1] && FromBits(c[n - 1..]) > 0
    requires forall i :: 0 <= i < n - 1 ==> !c[i]
    ensures Read(c + t) == Value(FromBits(c[n - 1..]) - 1, |c|)
  {
    LeadingZerosAre(c + t, n - 1);
    assert (c + t)[n - 1..n + n - 1] == c[n - 1..];
    ReadWord(c + t, n - 1, c[n - 1..]);
  }

  /** A stream that starts with the code of a value reads as that value. */
  lemma {:induction false} ReadCode(v: nat, t: Word)
    requires v < UINT32_MAX
    ensures Read(Code(v) + t) == Value(v, |Code(v)|)
  {
    var n := CountBits(v + 1);
    CodeShape(v, n);
    CountBitsBounds(v + 1);
    FromToBits(v + 1, n);
    ReadShape(Code(v), t, n);
  }

  lemma {:induction false} WordFits(w: Word)
    requires w != [] && w[0] && |w| <= 32
    ensures 0 < FromBits(w) <= UINT32_MAX
  {
    FromBitsOfTopBit(w);
    WordSize();
    PowerGrows(|w|, 32);
  }

  /** The word after the zeros is the shortest representation of its value. */
  lemma {:induction false} WordIsCode(w: Word)
    requires w != [] && w[0] && |w| <= 32
    ensures FromBits(w) > 0 && FromBits(w) - 1 < UINT32_MAX
    ensures Code(FromBits(w) - 1) == Zeros(|w| - 1) + w
  {
    WordFits(w);
    var v, n := FromBits(w), |w|;
    FromBitsOfTopBit(w);
    CountBitsIsUnique(v, n);
    ToFromBits(w);
    assert ToBits(v, n) == w;
  }

  lemma {:induction false} ZerosThenWord(s: Word, z: nat)
    requires z + z + 1 <= |s| && forall i :: 0 <= i < z ==> !s[i]
    ensures s == (Zeros(z) + s[z..z + z + 1]) + s[z + z + 1..]
  {
  }

  lemma {:induction false} ReadIsCode(s: Word, v: nat, n: nat)
    requires Read(s) == Value(v, n)
    ensures v < UINT32_MAX && n == |Code(v)| <= |s| && s == Code(v) + s[n..]
  {
    ReadIsWord(s, v, n);
  }

  lemma {:induction false} ReadIsWord(s: Word, v: nat, n: nat)
    requires LeadingZeros(s) < 32 && LeadingZeros(s) + LeadingZeros(s) + 1 == n <= |s|
    requires v + 1 == FromBits(s[LeadingZeros(s)..n])
    ensures v < UINT32_MAX && n == |Code(v)| && s == Code(v) + s[n..]
  {
    var z := LeadingZeros(s);
    var w := s[z..n];
    assert |w| == z + 1 && w[0] == s[z];
    WordIsCode(w);
    ZerosThenWord(s, z);
  }

  /** Reading succeeds exactly on streams that start with a code, and then with its value. */
  lemma {:induction false} ReadIffCode(s: Word, v: nat, n: nat)
    ensures Read(s) == Value(v, n) <==>
            v < UINT32_MAX && n == |Code(v)| <= |s| && s == Code(v) + s[n..]
  {
    if v < UINT32_MAX && n == |Code(v)| <= |s| && s == Code(v) + s[n..] {
      ReadCode(v, s[n..]);
    }
    if Read(s) == Value(v, n) {
      ReadIsCode(s, v, n);
    }
  }

  /** Clause 9.1 of H.264: after z zeros and a one, the next z bits are added to 2 to the z, less one. */
  lemma {:induction false} ReadFollowsClause91(s: Word, z: nat)
    requires z == LeadingZeros(s) && z < 32 && z + z + 1 <= |s|
    ensures Read(s).Value? && Read(s).length == z + z + 1
    ensures Read(s).value == Pow2(z) - 1 + FromBits(s[z + 1..z + z + 1])
  {
    var w := s[z..z + z + 1];
    assert w[1..] == s[z + 1..z + z + 1];
    LeadingOneAdds(w);
  }

  // ---------------------------------------------------------------------------------------------
  // Lists written back to back

  predicate Encodable(vs: seq<nat>) { forall i :: 0 <= i < |vs| ==> vs[i] < UINT32_MAX }

  /** `w` written over the bits of `s` from position `p` on. */
  function Overwrite(s: Word, p: nat, w: Word): (t: Word)
    requires p + |w| <= |s|
    ensures |t| == |s|
  {
    s[..p] + w + s[p + |w|..]
  }

  lemma {:induction false} OverwriteKeepsTheRest(s: Word, p: nat, w: Word, i: nat)
    requires p + |w| <= |s| && i < |s|
    ensures Overwrite(s, p, w)[i] == if p <= i < p + |w| then w[i - p] else s[i]
  {
  }

  /** Writing a list, one code after the other. */
  function WriteAll(s: Word, p: nat, vs: seq<nat>): (t: Word)
    requires p + |Codes(vs)| <= |s|
    ensures |t| == |s|
    decreases |vs|
  {
    if |vs| == 0 then s
    else WriteAll(Overwrite(s, p, Code(vs[0])), p + |Code(vs[0])|, vs[1..])
  }

  /** Reading `k` values from the start of `s`. */
  function ReadAll(s: Word, k: nat): ListReading
    decreases k
  {
    if k == 0 then Values([], s)
    else
      var r := Read(s);
      if r.Failed? then ListFailed
      else
        var rest := ReadAll(s[r.length..], k - 1);
        if rest.ListFailed? then ListFailed else Values([r.value] + rest.values, rest.left)
  }

  lemma {:induction false} OverwriteTwice(s: Word, p: nat, a: Word, b: Word)
    requires p + |a| + |b| <= |s|
    ensures Overwrite(Overwrite(s, p, a), p + |a|, b) == Overwrite(s, p, a + b)
  {
    var t := Overwrite(s, p, a);
    assert t[..p + |a|] == s[..p] + a;
    assert t[p + |a| + |b|..] == s[p + |a| + |b|..];
  }

  /** A list written back to back is the concatenation of its codes and touches nothing else. */
  lemma {:induction false} WriteAllIsCodes(s: Word, p: nat, vs: seq<nat>)
    requires p + |Codes(vs)| <= |s|
    ensures WriteAll(s, p, vs) == Overwrite(s, p, Codes(vs))
    decreases |vs|
  {
    if |vs| == 0 {
      assert Codes(vs) == [] && s[..p] + [] + s[p..] == s;
    } else {
      var c, rest := Code(vs[0]), vs[1..];
      assert Codes(vs) == c + Codes(rest);
      WriteAllIsCodes(Overwrite(s, p, c), p + |c|, rest);
      OverwriteTwice(s, p, c, Codes(rest));
    }
  }

  lemma {:induction false} ReadAllCons(v: nat, t: Word, rest: ListReading, k: nat)
    requires v < UINT32_MAX && rest == ReadAll(t, k) && rest.Values?
    ensures ReadAll(Code(v) + t, k + 1) == Values([v] + rest.values, rest.left)
  {
    ReadCode(v, t);
    assert (Code(v) + t)[|Code(v)|..] == t;
  }

  lemma {:induction false} CodesCons(v: nat, rest: seq<nat>, t: Word)
    ensures Codes([v] + rest) + t == Code(v) + (Codes(rest) + t)
  {
    assert ([v] + rest)[1..] == rest;
  }

  lemma {:induction false} ReadCodes(vs: seq<nat>, t: Word)
    requires Encodable(vs)
    ensures ReadAll(Codes(vs) + t, |vs|) == Values(vs, t)
    decreases |vs|
  {
    if |vs| == 0 {
      assert Codes(vs) + t == t;
    } else {
      var v, rest := vs[0], vs[1..];
      ReadCodes(rest, t);
      ReadAllCons(v, Codes(rest) + t, Values(rest, t), |rest|);
      assert vs == [v] + rest;
      CodesCons(v, rest, t);
    }
  }

  /** Any list of values, written from any position with enough room, is read back as the same list
      ending at the same position, and no bit outside is touched. */
  lemma {:induction false} RoundTrip(s: Word, p: nat, vs: seq<nat>)
    requires p + |Codes(vs)| <= |s| && Encodable(vs)
    ensures var t, end := WriteAll(s, p, vs), p + |Codes(vs)|;
            && ReadAll(t[p..], |vs|) == Values(vs, t[end..])
            && t[..p] == s[..p] && t[end..] == s[end..]
  {
    WriteAllIsCodes(s, p, vs);
    var t, end := Overwrite(s, p, Codes(vs)), p + |Codes(vs)|;
    assert t[p..] == Codes(vs) + s[end..];
    assert t[end..] == s[end..];
    ReadCodes(vs, s[end..]);
  }

  // ---------------------------------------------------------------------------------------------
  // Signed values

  predicate Representable(v: int) { -INT32_MAX <= v <= INT32_MAX }

  /** The unsigned value written for a signed one. */
  function ToUnsigned(v: int): nat {
    if v == 0 then 0 else if v > 0 then v + v - 1 else -v - v
  }

  /** The signed value read for an unsigned one. */
  function ToSigned(u: nat): int {
    if u % 2 == 0 then -(u / 2) else (u + 1) / 2
  }

  /** The mapping is a bijection between the representable values and those below UINT32_MAX. */
  lemma {:induction false} SignedBijection(v: int, u: nat)
    ensures Representable(v) ==> ToUnsigned(v) < UINT32_MAX && ToSigned(ToUnsigned(v)) == v
    ensures u < UINT32_MAX ==> Representable(ToSigned(u)) && ToUnsigned(ToSigned(u)) == u
  {
  }

  /** The order in which the signed values take up the unsigned ones: 0, 1, -1, 2, -2, and so on. */
  lemma {:induction false} SignedOrder(k: int)
    requires k > 0
    ensures ToSigned(0) == 0 && ToSigned(2 * k - 1) == k && ToSigned(2 * k) == -k
    ensures ToUnsigned(0) == 0 && ToUnsigned(k) == 2 * k - 1 && ToUnsigned(-k) == 2 * k
  {
  }

  /** The same on the bits: what the code of an odd value stands for is positive, of an even one negative. */
  lemma {:induction false} SignedOnTheWire(k: int, t: Word)
    requires 0 < k <= INT32_MAX
    ensures var odd, even := Read(Code(2 * k - 1) + t), Read(Code(2 * k) + t);
            odd.Value? && even.Value? && ToSigned(odd.value) == k && ToSigned(even.value) == -k
  {
    ReadCode(2 * k - 1, t);
    ReadCode(2 * k, t);
    SignedOrder(k);
  }

  function ToUnsignedAll(vs: seq<int>): (us: seq<nat>)
    ensures |us| == |vs| && forall i :: 0 <= i < |vs| ==> us[i] == ToUnsigned(vs[i])
  {
    seq(|vs|, i requires 0 <= i < |vs| => ToUnsigned(vs[i]))
  }

  function ToSignedAll(us: seq<nat>): (vs: seq<int>)
    ensures |us| == |vs| && forall i :: 0 <= i < |us| ==> vs[i] == ToSigned(us[i])
  {
    seq(|us|, i requires 0 <= i < |us| => ToSigned(us[i]))
  }

  lemma {:induction false} SignedRoundTrip(s: Word, p: nat, vs: seq<int>)
    requires p + |Codes(ToUnsignedAll(vs))| <= |s| && forall i :: 0 <= i < |vs| ==> Representable(vs[i])
    ensures var t := WriteAll(s, p, ToUnsignedAll(vs));
            var r := ReadAll(t[p..], |vs|);
            r.Values? && ToSignedAll(r.values) == vs && r.left == t[p + |Codes(ToUnsignedAll(vs))|..]
  {
    var us := ToUnsignedAll(vs);
    forall i | 0 <= i < |vs| ensures us[i] < UINT32_MAX && ToSigned(us[i]) == vs[i] {
      SignedBijection(vs[i], 0);
    }
    RoundTrip(s, p, us);
  }
}
