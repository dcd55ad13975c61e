/** Machine words as strings of bits, high bit first, and the C operators on them. */
module Words {
  import opened Bits

  type Word = seq<bool>

  function Zeros(n: nat): (w: Word)
    ensures |w| == n && forall i :: 0 <= i < n ==> !w[i]
  {
    seq(n, _ => false)
  }

  function Ones(n: nat): (w: Word)
    ensures |w| == n && forall i :: 0 <= i < n ==> w[i]
  {
    seq(n, _ => true)
  }

  function And(a: Word, b: Word): (w: Word)
    requires |a| == |b|
    ensures |w| == |a| && forall i :: 0 <= i < |a| ==> w[i] == (a[i] && b[i])
  {
    seq(|a|, i requires 0 <= i < |a| => a[i] && b[i])
  }

  function Or(a: Word, b: Word): (w: Word)
    requires |a| == |b|
    ensures |w| == |a| && forall i :: 0 <= i < |a| ==> w[i] == (a[i] || b[i])
  {
    seq(|a|, i requires 0 <= i < |a| => a[i] || b[i])
  }

  function Not(a: Word): (w: Word)
    ensures |w| == |a| && forall i :: 0 <= i < |a| ==> w[i] == !a[i]
  {
    seq(|a|, i requires 0 <= i < |a| => !a[i])
  }

  /** `a << k`, truncated to the width of `a`. */
  function Shl(a: Word, k: nat): Word
    requires k <= |a|
  {
    a[k..] + Zeros(k)
  }

  /** `a >> k`. */
  function Shr(a: Word, k: nat): Word
    requires k <= |a|
  {
    Zeros(k) + a[..|a| - k]
  }

  // ---------------------------------------------------------------------------------------------
  // Words as numbers

  /** The low `n` bits of `v`. */
  function ToBits(v: nat, n: nat): (w: Word)
    ensures |w| == n
    decreases n
  {
    if n == 0 then [] else ToBits(v / 2, n - 1) + [v % 2 == 1]
  }

  function FromBits(w: Word): nat
    decreases |w|
  {
    if w == [] then 0 else 2 * FromBits(w[..|w| - 1]) + if w[|w| - 1] then 1 else 0
  }

  /** The bits stand high bit first: bit `i` from the left has weight 2 to the n - 1 - i. */
  lemma {:induction false} BitAt(v: nat, n: nat, i: nat)
    requires i < n
    ensures ToBits(v, n)[i] <==> ShiftRight(v, n - 1 - i) % 2 == 1
    decreases n
  {
    if i == n - 1 {
    } else {
      BitAt(v / 2, n - 1, i);
    }
  }

  lemma {:induction false} FromToBits(v: nat, n: nat)
    requires v < Pow2(n)
    ensures FromBits(ToBits(v, n)) == v
    decreases n
  {
    if n == 0 {
    } else {
      FromToBits(v / 2, n - 1);
      assert ToBits(v, n)[..n - 1] == ToBits(v / 2, n - 1);
    }
  }

  lemma {:induction false} ToFromBits(w: Word)
    ensures FromBits(w) < Pow2(|w|)
    ensures ToBits(FromBits(w), |w|) == w
    decreases |w|
  {
    if w == [] {
    } else {
      ToFromBits(w[..|w| - 1]);
      assert w == w[..|w| - 1] + [w[|w| - 1]];
    }
  }

  /** A leading one adds the weight of its place. */
  lemma {:induction false} LeadingOneAdds(w: Word)
    requires w != [] && w[0]
    ensures FromBits(w) == Pow2(|w| - 1) + FromBits(w[1..])
    decreases |w|
  {
    var k := |w| - 1;
    if k == 0 {
    } else {
      LeadingOneAdds(w[..k]);
      assert w[..k][1..] == w[1..][..k - 1];
    }
  }

  lemma {:induction false} LeadingZerosAddNothing(w: Word, k: nat)
    ensures FromBits(Zeros(k) + w) == FromBits(w)
    decreases |w| + k
  {
    var x := Zeros(k) + w;
    if w != [] {
      assert x[..|x| - 1] == Zeros(k) + w[..|w| - 1];
      LeadingZerosAddNothing(w[..|w| - 1], k);
    } else if k > 0 {
      assert x[..|x| - 1] == Zeros(k - 1) + w;
      LeadingZerosAddNothing(w, k - 1);
    }
  }

  /** A number that needs at most `n` bits has zeros above them. */
  lemma {:induction false} HighBitsAreZero(v: nat, n: nat, k: nat)
    requires v < Pow2(n)
    ensures ToBits(v, k + n) == Zeros(k) + ToBits(v, n)
    decreases n
  {
    if n > 0 {
      HighBitsAreZero(v / 2, n - 1, k);
      assert ToBits(v, k + n) == ToBits(v / 2, k + n - 1) + [v % 2 == 1];
    } else {
      ZeroBits(k);
      assert Zeros(k) + [] == Zeros(k);
    }
  }

  lemma {:induction false} ZeroBits(k: nat)
    ensures ToBits(0, k) == Zeros(k)
    decreases k
  {
    if k == 0 {
    } else {
      ZeroBits(k - 1);
    }
  }

  /** The low `n` bits are the end of any wider representation. */
  lemma {:induction false} LowBits(v: nat, n: nat, k: nat)
    ensures ToBits(v, k + n)[k..] == ToBits(v, n)
    decreases n
  {
    if n == 0 {
    } else {
      LowBits(v / 2, n - 1, k);
      assert ToBits(v, k + n) == ToBits(v / 2, k + n - 1) + [v % 2 == 1];
    }
  }
}
