/** BufferT (buffer.h): a buffer that grows by half of its capacity, keeping its contents. */
module BufferT {

  function Max(a: nat, b: nat): nat { if a < b then b else a }

  /** At most the first `n` elements. */
  function Truncated<T>(s: seq<T>, n: nat): (t: seq<T>)
    ensures t <= s && |t| == if |s| < n then |s| else n
  {
    if |s| <= n then s else s[..n]
  }

  /** The capacity after a request for `capacity` elements. */
  function Grown(current: nat, capacity: nat, headroom: bool): nat {
    if capacity <= current then current
    else if headroom && current + current / 2 > capacity then current + current / 2
    else capacity
  }

  /** Storage never shrinks and is enough; a request beyond it gets half as much again as there was when
      that is more and headroom is wanted, and just what it asks for otherwise. */
  lemma GrowthRule(current: nat, capacity: nat, headroom: bool)
    ensures var c := Grown(current, capacity, headroom);
            && current <= c && capacity <= c && (capacity <= current ==> c == current)
            && (capacity > current ==> c == if headroom then Max(capacity, current + current / 2) else capacity)
  {
  }

  class Buffer<T(0)> {
    var data: array<T>
    var size: nat
    /** Elements copied by reallocations so far. */
    ghost var copied: nat

    ghost predicate Valid()
      reads this
    {
      size <= data.Length
    }

    ghost function Contents(): seq<T>
      requires Valid()
      reads this, data
    {
      data[..size]
    }

    /** Size, capacity and copying so far. */
    ghost function Measure(): Cost
      reads this
    {
      Cost(size, data.Length, copied)
    }

    constructor ()
      ensures Valid() && fresh(data) && Contents() == [] && data.Length == 0 && copied == 0
    {
      data := new T[0];
      size := 0;
      copied := 0;
    }

    constructor WithCapacity(contents: seq<T>, capacity: nat)
      ensures Valid() && fresh(data) && Contents() == contents && copied == 0
      ensures data.Length == if |contents| > capacity then |contents| else capacity
    {
      var d := new T[if |contents| > capacity then |contents| else capacity];
      forall i | 0 <= i < |contents| {
        d[i] := contents[i];
      }
      data := d;
      size := |contents|;
      copied := 0;
    }

    method EnsureCapacityWithHeadroom(capacity: nat, headroom: bool)
      requires Valid()
      modifies this
      ensures Valid() && size == old(size) && Contents() == old(Contents())
      ensures data.Length == Grown(old(data.Length), capacity, headroom)
      ensures if capacity <= old(data.Length) then data == old(data) && copied == old(copied)
              else fresh(data) && copied == old(copied) + size
    {
      if capacity <= data.Length {
        return;
      }
      var bigger := new T[Grown(data.Length, capacity, headroom)];
      forall i | 0 <= i < size {
        bigger[i] := data[i];
      }
      data := bigger;
      copied := copied + size;
    }

    method EnsureCapacity(capacity: nat)
      requires Valid()
      modifies this
      ensures Valid() && size == old(size) && Contents() == old(Contents())
      ensures data.Length == Max(old(data.Length), capacity)
      ensures if capacity <= old(data.Length) then data == old(data) && copied == old(copied)
              else fresh(data) && copied == old(copied) + size
    {
      EnsureCapacityWithHeadroom(capacity, false);
    }

    /** New elements past the old size are whatever the storage holds. */
    method SetSize(newSize: nat)
      requires Valid()
      modifies this
      ensures Valid() && size == newSize && Measure() == Apply(old(Measure()), Resize(newSize))
      ensures if newSize <= old(data.Length) then data == old(data) else fresh(data)
      ensures Contents()[..if newSize < old(size) then newSize else old(size)]
           == old(Contents()[..if newSize < size then newSize else size])
    {
      EnsureCapacityWithHeadroom(newSize, true);
      size := newSize;
    }

    method AppendData(source: seq<T>)
      requires Valid()
      modifies this, data
      ensures Valid() && Contents() == old(Contents()) + source
      ensures Measure() == Apply(old(Measure()), Append(|source|))
      ensures if size <= old(data.Length) then data == old(data) else fresh(data)
    {
      var newSize := size + |source|;
      EnsureCapacityWithHeadroom(newSize, true);
      ghost var before := data[..size];
      forall i | 0 <= i < |source| {
        data[size + i] := source[i];
      }
      assert data[..size] == before;
      assert data[size..newSize] == source;
      assert data[..newSize] == data[..size] + data[size..newSize];
      size := newSize;
    }

    method SetData(source: seq<T>)
      requires Valid()
      modifies this, data
      ensures Valid() && Contents() == source
      ensures Measure() == Apply(old(Measure()), Replace(|source|))
      ensures if |source| <= old(data.Length) then data == old(data) else fresh(data)
    {
      size := 0;
      AppendData(source);
    }

    method Clear()
      requires Valid()
      modifies this
      ensures Valid() && Contents() == [] && data == old(data)
      ensures Measure() == Apply(old(Measure()), Empty)
    {
      size := 0;
    }
  }

  // ---------------------------------------------------------------------------------------------
  // The cost of growing, over any run of the operations that ask for headroom

  datatype Operation = Append(count: nat) | Replace(count: nat) | Resize(newSize: nat) | Empty

  /** Size, capacity and elements copied so far, as the methods above change them. */
  datatype Cost = Cost(size: nat, capacity: nat, copied: nat)

  /** The number of elements the operation leaves in the buffer, and how many it has to keep. */
  function SizeAfter(size: nat, op: Operation): nat {
    match op
    case Append(n) => size + n
    case Replace(n) => n
    case Resize(n) => n
    case Empty => 0
  }

  function Kept(size: nat, op: Operation): nat {
    if op.Replace? || op.Empty? then 0 else size
  }

  function Apply(c: Cost, op: Operation): Cost {
    var n := SizeAfter(c.size, op);
    Cost(n, Grown(c.capacity, n, true), c.copied + if n > c.capacity then Kept(c.size, op) else 0)
  }

  function Run(c: Cost, ops: seq<Operation>): Cost
    decreases |ops|
  {
    if ops == [] then c else Run(Apply(c, ops[0]), ops[1..])
  }

  /** The largest size reached. */
  function Peak(size: nat, ops: seq<Operation>): nat
    decreases |ops|
  {
    if ops == [] then size
    else
      var rest := Peak(SizeAfter(size, ops[0]), ops[1..]);
      if size > rest then size else rest
  }

  /** Total copying is at most three times the final capacity, which never shrinks and exceeds the
      initial one only up to half again the largest size reached. */
  lemma {:induction false} AmortisedGrowth(c: Cost, ops: seq<Operation>)
    requires c.size <= c.capacity && c.copied <= 3 * c.capacity
    ensures var r := Run(c, ops);
            && r.size <= r.capacity && r.copied <= 3 * r.capacity
            && r.capacity >= c.capacity
            && (r.capacity <= c.capacity || 2 * r.capacity <= 3 * Peak(c.size, ops))
    decreases |ops|
  {
    if ops == [] {
    } else {
      AmortisedGrowth(Apply(c, ops[0]), ops[1..]);
    }
  }
}
