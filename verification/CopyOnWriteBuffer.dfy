/** CopyOnWriteBuffer (copyonwritebuffer.h, copyonwritebuffer.cc): handles that share reference-counted
    storage and copy it before they change it. */
module CopyOnWriteBuffer {
  import opened ByteOrder
  import B = BufferT

  /** What a handle stands for: no storage, or a byte sequence. */
  datatype Value = Unallocated | Bytes(bytes: seq<byte>)

  function Content(v: Value): seq<byte> { if v.Bytes? then v.bytes else [] }

  /** `now` is `was` with `data` behind it. */
  predicate Appended(was: seq<byte>, data: seq<byte>, now: seq<byte>) {
    |now| == |was| + |data| && now[..|was|] == was && now[|was|..] == data
  }

  /** `now` has the size of `found`, the bytes of `was` as far as these go and then those of `found`. */
  predicate Resized(was: seq<byte>, found: seq<byte>, now: seq<byte>) {
    |now| == |found| && forall i :: 0 <= i < |now| ==> now[i] == if i < |was| then was[i] else found[i]
  }

  /** How the capacity changes when `need` bytes have to fit: not at all if it suffices, and never down. */
  predicate Accommodates(was: nat, need: nat, now: nat) {
    now >= was && now >= need && (need <= was ==> now == was)
  }

  function SetDataIn(v: Value, data: seq<byte>): Value {
    if v.Unallocated? && data == [] then Unallocated else Bytes(data)
  }

  function AppendIn(v: Value, data: seq<byte>): Value { Bytes(Content(v) + data) }

  function SetSizeIn(v: Value, found: seq<byte>): Value {
    var kept := B.Truncated(Content(v), |found|);
    if v.Unallocated? && found == [] then Unallocated else Bytes(kept + found[|kept|..])
  }

  lemma {:induction false} SetSizeResizes(v: Value, found: seq<byte>)
    ensures Resized(Content(v), found, Content(SetSizeIn(v, found)))
  {
  }

  /** RefCountedObject<Buffer>. */
  class Storage {
    var contents: seq<byte>
    var capacity: nat
    var refs: nat

    constructor (contents: seq<byte>, capacity: nat)
      ensures this.contents == contents && this.capacity == B.Max(|contents|, capacity) && refs == 0
    {
      this.contents := contents;
      this.capacity := B.Max(|contents|, capacity);
      refs := 0;
    }
  }

  /** Where each handle points. */
  ghost function Pointers(hs: set<Handle>): map<Handle, Storage?>
    reads hs
  {
    map h | h in hs :: h.buffer
  }

  ghost function Storages(hs: set<Handle>): set<Storage>
    reads hs
  {
    set h | h in hs && h.buffer != null :: h.buffer
  }

  ghost function Sharing(pointers: map<Handle, Storage?>, st: Storage): set<Handle> {
    set h | h in pointers && pointers[h] == st
  }

  /** The storage counts exactly the handles of `hs` that point to it. */
  ghost predicate Counted(hs: set<Handle>, st: Storage)
    reads hs, st
  {
    st.refs == |Sharing(Pointers(hs), st)|
  }

  ghost predicate World(hs: set<Handle>)
    reads hs, Storages(hs)
  {
    forall h <- hs :: h.buffer != null ==> Counted(hs, h.buffer)
  }

  /** The world, every handle of it consistent. */
  ghost predicate Sound(hs: set<Handle>)
    reads hs, Storages(hs)
  {
    World(hs) && forall h <- hs :: h.Consistent()
  }

  ghost function Only(st: Storage?): set<Storage> { if st == null then {} else {st} }

  lemma {:induction false} SoleOwner(owners: set<Handle>, h: Handle)
    requires h in owners && |owners| == 1
    ensures owners == {h}
  {
    var others := owners - {h};
    assert owners == others + {h};
    assert others == {};
  }

  class Handle {
    var buffer: Storage?

    constructor ()
      ensures buffer == null
    {
      buffer := null;
    }

    ghost function View(): Value
      reads this, buffer
    {
      if buffer == null then Unallocated else Bytes(buffer.contents)
    }

    ghost function Capacity(): nat
      reads this, buffer
    {
      if buffer == null then 0 else buffer.capacity
    }

    /** IsConsistent of this handle and of its storage. */
    ghost predicate Consistent()
      reads this, buffer
    {
      buffer != null ==> buffer.capacity > 0 && |buffer.contents| <= buffer.capacity
    }

    /** Assignment of a pointer to the scoped_refptr: the new storage is counted first, then the old one
        released. */
    method Point(to: Storage?, ghost hs: set<Handle>)
      requires World(hs) && this in hs
      requires to != null ==> Counted(hs, to)
      modifies this, Only(to)`refs, Only(buffer)`refs
      ensures World(hs) && buffer == to
    {
      ghost var pointers := Pointers(hs);
      assert buffer != null ==> this in Sharing(pointers, buffer);
      if to != null {
        to.refs := to.refs + 1;
      }
      if buffer != null {
        buffer.refs := buffer.refs - 1;
      }
      buffer := to;
      assert Pointers(hs) == pointers[this := to];
      forall h | h in hs && h.buffer != null ensures Counted(hs, h.buffer) {
        Repointed(pointers, this, to, h.buffer);
      }
    }

    /** Pointing to new storage changes only what this handle stands for. */
    method PointToNew(contents: seq<byte>, capacity: nat, ghost hs: set<Handle>)
      requires Sound(hs) && this in hs
      modifies this, Only(buffer)`refs
      ensures World(hs) && Alone(hs) && (Sound(hs) <==> contents != [] || capacity > 0)
      ensures buffer != null && buffer.contents == contents && buffer.capacity == B.Max(|contents|, capacity)
      ensures fresh(buffer)
      ensures forall h <- hs :: h != this ==> h.View() == old(h.View())
    {
      var st := new Storage(contents, capacity);
      Adopt(st, hs);
    }

    /** Pointing to storage that no handle shares. */
    method Adopt(st: Storage, ghost hs: set<Handle>)
      requires World(hs) && this in hs && st.refs == 0 && forall h <- hs :: h.buffer != st
      modifies this, st`refs, Only(buffer)`refs
      ensures World(hs) && Alone(hs) && buffer == st
    {
      NobodyShares(hs, st);
      Point(st, hs);
    }

    /** HasOneRef: no other handle shares the storage. */
    ghost predicate Alone(hs: set<Handle>)
      reads this, hs
    {
      buffer != null && forall h <- hs :: h != this ==> h.buffer != buffer
    }

    lemma {:induction false} OneRefIsAlone(hs: set<Handle>)
      requires World(hs) && this in hs && buffer != null && buffer.refs == 1
      ensures Alone(hs)
    {
      SoleOwner(Sharing(Pointers(hs), buffer), this);
      forall h | h in hs && h != this ensures h.buffer != buffer {
        assert h !in Sharing(Pointers(hs), buffer);
      }
    }

    method CloneDataIfReferenced(newCapacity: nat, ghost hs: set<Handle>)
      requires Sound(hs) && this in hs && buffer != null && newCapacity >= buffer.capacity
      modifies this, Only(buffer)`refs
      ensures Sound(hs) && Alone(hs) && View() == old(View())
      ensures old(buffer.capacity) <= buffer.capacity <= newCapacity
      ensures buffer == old(buffer) || fresh(buffer)
      ensures forall h <- hs :: h != this ==> h.View() == old(h.View())
    {
      if buffer.refs == 1 {
        OneRefIsAlone(hs);
      } else {
        PointToNew(buffer.contents, newCapacity, hs);
      }
    }

    /** A change of the storage, when no other handle shares it. */
    method Update(contents: seq<byte>, capacity: nat, ghost hs: set<Handle>)
      requires Sound(hs) && this in hs && Alone(hs) && capacity > 0 && |contents| <= capacity
      modifies Only(buffer)`contents, Only(buffer)`capacity
      ensures Sound(hs) && View() == Bytes(contents) && buffer.capacity == capacity
      ensures forall h <- hs :: h != this ==> h.View() == old(h.View())
    {
      buffer.contents := contents;
      buffer.capacity := capacity;
    }

    method SetData(data: seq<byte>, ghost hs: set<Handle>)
      requires Sound(hs) && this in hs
      modifies this, Only(buffer)
      ensures Sound(hs)
      ensures View() == SetDataIn(old(View()), data) && Content(View()) == data
      ensures Accommodates(old(Capacity()), |data|, Capacity())
      ensures buffer == old(buffer) || (buffer != null && fresh(buffer))
      ensures forall h <- hs :: h != this ==> h.View() == old(h.View())
    {
      if buffer == null {
        if |data| > 0 {
          PointToNew(data, |data|, hs);
        }
      } else if buffer.refs != 1 {
        PointToNew(data, buffer.capacity, hs);
      } else {
        OneRefIsAlone(hs);
        Update(data, B.Grown(buffer.capacity, |data|, true), hs);
      }
    }

    /** Appending nothing to a handle without storage gives it storage of capacity 0. */
    method AppendData(data: seq<byte>, ghost hs: set<Handle>)
      requires Sound(hs) && this in hs
      modifies this, Only(buffer)
      ensures World(hs) && (Sound(hs) <==> old(View()) != Unallocated || data != [])
      ensures View() == AppendIn(old(View()), data) && Appended(Content(old(View())), data, Content(View()))
      ensures Accommodates(old(Capacity()), |Content(View())|, Capacity())
      ensures buffer == old(buffer) || (buffer != null && fresh(buffer))
      ensures forall h <- hs :: h != this ==> h.View() == old(h.View())
    {
      if buffer == null {
        PointToNew(data, |data|, hs);
        return;
      }
      CloneDataIfReferenced(B.Max(buffer.capacity, |buffer.contents| + |data|), hs);
      var contents := buffer.contents + data;
      Update(contents, B.Grown(buffer.capacity, |contents|, true), hs);
    }

    /** The handle's contents followed by another handle's, or by its own unless these would have to be
        copied from storage that growing has released. */
    method AppendHandle(other: Handle, ghost hs: set<Handle>)
      requires Sound(hs) && this in hs && other in hs
      requires other == this && buffer != null ==>
                 buffer.refs != 1 || |buffer.contents| + |buffer.contents| <= buffer.capacity
      modifies this, Only(buffer)
      ensures World(hs) && (Sound(hs) <==> old(View()) != Unallocated || Content(old(other.View())) != [])
      ensures View() == AppendIn(old(View()), Content(old(other.View())))
      ensures Appended(Content(old(View())), Content(old(other.View())), Content(View()))
      ensures Accommodates(old(Capacity()), |Content(View())|, Capacity())
      ensures buffer == old(buffer) || (buffer != null && fresh(buffer))
      ensures forall h <- hs :: h != this ==> h.View() == old(h.View())
    {
      AppendData(if other.buffer == null then [] else other.buffer.contents, hs);
    }

    /** SetSize of storage that no other handle shares. */
    method Resize(size: nat, found: seq<byte>, ghost hs: set<Handle>)
      requires Sound(hs) && this in hs && Alone(hs) && |found| == size
      modifies Only(buffer)`contents, Only(buffer)`capacity
      ensures Sound(hs)
      ensures var kept := B.Truncated(Content(old(View())), size); View() == Bytes(kept + found[|kept|..])
      ensures Accommodates(old(Capacity()), size, Capacity())
      ensures forall h <- hs :: h != this ==> h.View() == old(h.View())
    {
      var kept := B.Truncated(buffer.contents, size);
      Update(kept + found[|kept|..], B.Grown(buffer.capacity, size, true), hs);
    }

    /** `found` is what the memory holds; only its bytes past the old size come to light. */
    method SetSize(size: nat, found: seq<byte>, ghost hs: set<Handle>)
      requires Sound(hs) && this in hs && |found| == size
      modifies this, Only(buffer)
      ensures Sound(hs)
      ensures View() == SetSizeIn(old(View()), found) && Resized(Content(old(View())), found, Content(View()))
      ensures Accommodates(old(Capacity()), size, Capacity())
      ensures buffer == old(buffer) || (buffer != null && fresh(buffer))
      ensures forall h <- hs :: h != this ==> h.View() == old(h.View())
    {
      SetSizeResizes(View(), found);
      if buffer == null {
        if size > 0 {
          PointToNew(found, size, hs);
        }
        return;
      }
      ghost var kept := B.Truncated(buffer.contents, size);
      if buffer.refs != 1 {
        PointToNew(B.Truncated(buffer.contents, size), B.Max(buffer.capacity, size), hs);
      } else {
        OneRefIsAlone(hs);
      }
      assert B.Truncated(buffer.contents, size) == kept;
      Resize(size, found, hs);
    }

    method EnsureCapacity(capacity: nat, ghost hs: set<Handle>)
      requires Sound(hs) && this in hs
      modifies this, Only(buffer)
      ensures Sound(hs)
      ensures View() == if old(View()) == Unallocated && capacity > 0 then Bytes([]) else old(View())
      ensures Capacity() == B.Max(old(Capacity()), capacity)
      ensures buffer == old(buffer) || (buffer != null && fresh(buffer))
      ensures forall h <- hs :: h != this ==> h.View() == old(h.View())
    {
      if buffer == null {
        if capacity > 0 {
          PointToNew([], capacity, hs);
        }
      } else if capacity > buffer.capacity {
        CloneDataIfReferenced(B.Max(buffer.capacity, capacity), hs);
        Update(buffer.contents, B.Grown(buffer.capacity, capacity, false), hs);
      }
    }

    method Clear(ghost hs: set<Handle>)
      requires Sound(hs) && this in hs
      modifies this, Only(buffer)
      ensures Sound(hs)
      ensures View() == if old(View()) == Unallocated then Unallocated else Bytes([])
      ensures Capacity() == old(Capacity())
      ensures buffer == old(buffer) || (buffer != null && fresh(buffer))
      ensures forall h <- hs :: h != this ==> h.View() == old(h.View())
    {
      if buffer != null {
        if buffer.refs == 1 {
          OneRefIsAlone(hs);
          Update([], buffer.capacity, hs);
        } else {
          PointToNew([], buffer.capacity, hs);
        }
      }
    }

    /** A write through the non-const operator[]. */
    method Write(index: nat, b: byte, ghost hs: set<Handle>)
      requires Sound(hs) && this in hs && index < |Content(View())|
      modifies this, Only(buffer)
      ensures Sound(hs)
      ensures View() == Bytes(Content(old(View()))[index := b]) && Capacity() == old(Capacity())
      ensures buffer == old(buffer) || (buffer != null && fresh(buffer))
      ensures forall h <- hs :: h != this ==> h.View() == old(h.View())
    {
      CloneDataIfReferenced(buffer.capacity, hs);
      Update(buffer.contents[index := b], buffer.capacity, hs);
    }

    /** Copy assignment, and SetData from a handle. */
    method Assign(other: Handle, ghost hs: set<Handle>)
      requires Sound(hs) && this in hs && other in hs
      modifies this, Only(buffer)`refs, Only(other.buffer)`refs
      ensures Sound(hs)
      ensures buffer == old(other.buffer) && View() == old(other.View())
      ensures forall h <- hs :: h != this ==> h.View() == old(h.View())
    {
      if other != this {
        Point(other.buffer, hs);
      }
    }

    /** Move construction of the scoped_refptr: the pointer changes hands, the count stays. */
    method Steal(from: Handle, ghost hs: set<Handle>)
      requires World(hs) && this in hs && from in hs && this != from && buffer == null
      modifies this, from
      ensures World(hs) && buffer == old(from.buffer) && from.buffer == null
    {
      ghost var pointers := Pointers(hs);
      buffer := from.buffer;
      from.buffer := null;
      ghost var emptied: map<Handle, Storage?> := pointers[from := null];
      assert Pointers(hs) == emptied[this := buffer];
      forall h | h in hs && h.buffer != null ensures Counted(hs, h.buffer) {
        Repointed(pointers, from, null, h.buffer);
        Repointed(emptied, this, buffer, h.buffer);
      }
    }

    /** Move assignment of the scoped_refptr: a temporary takes the pointer, what was here is released,
        and the temporary hands it over. */
    method MovePointer(other: Handle, ghost hs: set<Handle>)
      requires World(hs) && this in hs && other in hs
      modifies this, other, Only(buffer)`refs
      ensures World(hs) && buffer == old(other.buffer) && (other != this ==> other.buffer == null)
    {
      var temp := new Handle();
      ghost var more := hs + {temp};
      Enlarged(hs, temp);
      temp.Steal(other, more);
      Point(null, more);
      Steal(temp, more);
      Enlarged(hs, temp);
    }

    /** A handle moved to itself keeps its storage. */
    method Move(other: Handle, ghost hs: set<Handle>)
      requires Sound(hs) && this in hs && other in hs
      modifies this, other, Only(buffer)`refs
      ensures Sound(hs)
      ensures buffer == old(other.buffer) && View() == old(other.View())
      ensures other != this ==> other.View() == Unallocated
      ensures forall h <- hs :: h != this && h != other ==> h.View() == old(h.View())
    {
      MovePointer(other, hs);
    }

    method SwapPointers(other: Handle, ghost hs: set<Handle>)
      requires World(hs) && this in hs && other in hs
      modifies this, other
      ensures World(hs) && buffer == old(other.buffer) && other.buffer == old(buffer)
    {
      var temp := new Handle();
      ghost var more := hs + {temp};
      Enlarged(hs, temp);
      temp.Steal(this, more);
      MovePointer(other, more);
      other.MovePointer(temp, more);
      Enlarged(hs, temp);
    }

    /** The friend swap, through a temporary. */
    method Swap(other: Handle, ghost hs: set<Handle>)
      requires Sound(hs) && this in hs && other in hs
      modifies this, other
      ensures Sound(hs)
      ensures buffer == old(other.buffer) && other.buffer == old(buffer)
      ensures View() == old(other.View()) && other.View() == old(View())
      ensures forall h <- hs :: h != this && h != other ==> h.View() == old(h.View())
    {
      SwapPointers(other, hs);
    }

    method Equals(other: Handle) returns (equal: bool)
      ensures equal <==> View() == other.View()
    {
      equal := buffer == other.buffer || (buffer != null && other.buffer != null && buffer.contents == other.buffer.contents);
    }
  }

  lemma {:induction false} NobodyShares(hs: set<Handle>, st: Storage)
    requires st.refs == 0 && forall h <- hs :: h.buffer != st
    ensures Counted(hs, st)
  {
    assert Sharing(Pointers(hs), st) == {};
  }

  /** A handle without storage makes no difference to the counts. */
  lemma {:induction false} Enlarged(hs: set<Handle>, h: Handle)
    requires h !in hs && h.buffer == null
    ensures World(hs + {h}) <==> World(hs)
  {
    forall g | g in hs && g.buffer != null ensures Counted(hs + {h}, g.buffer) <==> Counted(hs, g.buffer) {
      assert Sharing(Pointers(hs + {h}), g.buffer) == Sharing(Pointers(hs), g.buffer);
    }
  }

  /** How the number of handles that share `st` changes when one handle is pointed elsewhere. */
  lemma {:induction false} Repointed(pointers: map<Handle, Storage?>, h: Handle, to: Storage?, st: Storage)
    requires h in pointers
    ensures |Sharing(pointers[h := to], st)|
         == |Sharing(pointers, st)| + (if to == st then 1 else 0) - (if pointers[h] == st then 1 else 0)
  {
    var now, was := Sharing(pointers[h := to], st), Sharing(pointers, st);
    assert now - {h} == was - {h};
    assert now == if to == st then (was - {h}) + {h} else was - {h};
    assert was == if pointers[h] == st then (was - {h}) + {h} else was - {h};
  }

  // ---------------------------------------------------------------------------------------------
  // Any run of operations on any handles, against values that share nothing

  datatype Operation =
    | Assign(to: nat, from: nat) | Move(to: nat, from: nat) | Swap(to: nat, from: nat)
    | Write(to: nat, index: nat, b: byte) | SetData(to: nat, data: seq<byte>)
    | Append(to: nat, data: seq<byte>) | AppendHandle(to: nat, from: nat)
    | SetSize(to: nat, found: seq<byte>) | EnsureCapacity(to: nat, capacity: nat) | Clear(to: nat)

  function Apply(vs: seq<Value>, op: Operation): (r: seq<Value>)
    requires Legal(vs, op)
    ensures |r| == |vs|
  {
    var v := vs[op.to];
    match op
    case Assign(to, from) => vs[to := vs[from]]
    case Move(to, from) => vs[from := Unallocated][to := vs[from]]
    case Swap(to, from) => vs[to := vs[from]][from := v]
    case Write(to, index, b) => vs[to := Bytes(v.bytes[index := b])]
    case SetData(to, data) => vs[to := SetDataIn(v, data)]
    case Append(to, data) => vs[to := AppendIn(v, data)]
    case AppendHandle(to, from) => vs[to := AppendIn(v, Content(vs[from]))]
    case SetSize(to, found) => vs[to := SetSizeIn(v, found)]
    case EnsureCapacity(to, capacity) => if v.Unallocated? && capacity > 0 then vs[to := Bytes([])] else vs
    case Clear(to) => if v.Unallocated? then vs else vs[to := Bytes([])]
  }

  /** What the operation makes of the handle it acts on, as its caller sees it. */
  predicate Effect(vs: seq<Value>, op: Operation, r: seq<Value>)
    requires Legal(vs, op) && |r| == |vs|
  {
    var was, now := Content(vs[op.to]), Content(r[op.to]);
    match op
    case Assign(to, from) => r[to] == vs[from]
    case Move(to, from) => r[to] == vs[from] && (from != to ==> r[from] == Unallocated)
    case Swap(to, from) => r[to] == vs[from] && r[from] == vs[to]
    case Write(_, index, b) =>
      |now| == |was| && now[index] == b && forall i :: 0 <= i < |was| && i != index ==> now[i] == was[i]
    case SetData(_, data) => now == data
    case Append(_, data) => Appended(was, data, now)
    case AppendHandle(_, from) => Appended(was, Content(vs[from]), now)
    case SetSize(_, found) => Resized(was, found, now)
    case EnsureCapacity(_, _) => now == was
    case Clear(_) => now == []
  }

  /** Every operation has its effect, and none on any handle it does not act on. */
  lemma {:induction false} OperationsHaveTheirEffect(vs: seq<Value>, op: Operation)
    requires Legal(vs, op)
    ensures Effect(vs, op, Apply(vs, op))
    ensures forall i :: 0 <= i < |vs| && !ActsOn(op, i) ==> Apply(vs, op)[i] == vs[i]
  {
  }

  /** The handles exist, a write is within the size, something is appended to a handle without
      storage, and what is appended does not lie in the buffer itself. */
  predicate Legal(vs: seq<Value>, op: Operation) {
    && op.to < |vs|
    && ((op.Assign? || op.Move? || op.Swap? || op.AppendHandle?) ==> op.from < |vs|)
    && (op.Write? ==> vs[op.to].Bytes? && op.index < |vs[op.to].bytes|)
    && (op.Append? ==> vs[op.to].Bytes? || op.data != [])
    && (op.AppendHandle? ==> op.from != op.to && (vs[op.to].Bytes? || Content(vs[op.from]) != []))
  }

  predicate AllLegal(vs: seq<Value>, ops: seq<Operation>)
    decreases |ops|
  {
    ops != [] ==> Legal(vs, ops[0]) && AllLegal(Apply(vs, ops[0]), ops[1..])
  }

  function Run(vs: seq<Value>, ops: seq<Operation>): (r: seq<Value>)
    requires AllLegal(vs, ops)
    ensures |r| == |vs|
    decreases |ops|
  {
    if ops == [] then vs else Run(Apply(vs, ops[0]), ops[1..])
  }

  /** Whether an operation acts on a handle, rather than on another that may share its storage. */
  predicate ActsOn(op: Operation, i: nat) { i == op.to || ((op.Move? || op.Swap?) && i == op.from) }

  /** A handle that no operation acts on keeps its value through any run. */
  lemma {:induction false} Untouched(vs: seq<Value>, ops: seq<Operation>, i: nat)
    requires AllLegal(vs, ops) && i < |vs| && forall k :: 0 <= k < |ops| ==> !ActsOn(ops[k], i)
    ensures Run(vs, ops)[i] == vs[i]
    decreases |ops|
  {
    if ops == [] {
    } else {
      assert Apply(vs, ops[0])[i] == vs[i];
      Untouched(Apply(vs, ops[0]), ops[1..], i);
    }
  }

  ghost predicate Distinct(hs: seq<Handle>) { forall i, j :: 0 <= i < j < |hs| ==> hs[i] != hs[j] }

  /** The handles stand for the values. */
  ghost predicate Represents(hs: seq<Handle>, vs: seq<Value>)
    reads hs, Storages(Members(hs))
  {
    |vs| == |hs| && forall i :: 0 <= i < |hs| ==> hs[i].View() == vs[i]
  }

  ghost function Members(hs: seq<Handle>): set<Handle> { set h | h in hs }

  /** The operations that put bytes into a handle. */
  method Mutate(hs: seq<Handle>, op: Operation, ghost vs: seq<Value>)
    requires Distinct(hs) && Sound(Members(hs)) && Represents(hs, vs) && Legal(vs, op)
    requires op.Write? || op.SetData? || op.Append? || op.AppendHandle?
    modifies hs, Storages(Members(hs))
    ensures Sound(Members(hs)) && Represents(hs, Apply(vs, op))
    ensures forall h <- hs :: h.buffer == old(h.buffer) || (h.buffer != null && fresh(h.buffer))
  {
    ghost var all := Members(hs);
    var h := hs[op.to];
    assert h in all;
    match op
    case Write(_, index, b) => h.Write(index, b, all);
    case SetData(_, data) => h.SetData(data, all);
    case Append(_, data) => h.AppendData(data, all);
    case AppendHandle(_, from) =>
      assert hs[from] in all && hs[from] != h;
      h.AppendHandle(hs[from], all);
  }

  /** Those that only change its size or capacity. */
  method Reshape(hs: seq<Handle>, op: Operation, ghost vs: seq<Value>)
    requires Distinct(hs) && Sound(Members(hs)) && Represents(hs, vs) && Legal(vs, op)
    requires op.SetSize? || op.EnsureCapacity? || op.Clear?
    modifies hs, Storages(Members(hs))
    ensures Sound(Members(hs)) && Represents(hs, Apply(vs, op))
    ensures forall h <- hs :: h.buffer == old(h.buffer) || (h.buffer != null && fresh(h.buffer))
  {
    ghost var all := Members(hs);
    var h := hs[op.to];
    assert h in all;
    match op
    case SetSize(_, found) => h.SetSize(|found|, found, all);
    case EnsureCapacity(_, capacity) => h.EnsureCapacity(capacity, all);
    case Clear(_) => h.Clear(all);
  }

  method Transfer(hs: seq<Handle>, op: Operation, ghost vs: seq<Value>)
    requires Distinct(hs) && Sound(Members(hs)) && Represents(hs, vs) && Legal(vs, op)
    requires op.Assign? || op.Move? || op.Swap?
    modifies hs, Storages(Members(hs))
    ensures Sound(Members(hs)) && Represents(hs, Apply(vs, op))
    ensures Storages(Members(hs)) <= old(Storages(Members(hs)))
  {
    ghost var all := Members(hs);
    var h, other := hs[op.to], hs[op.from];
    assert h in all && other in all;
    match op
    case Assign(_, _) => h.Assign(other, all);
    case Move(_, _) => h.Move(other, all);
    case Swap(_, _) => h.Swap(other, all);
  }

  /** Over every run each handle behaves as an independent byte sequence, and no storage in use ever
      has capacity 0. */
  method Execute(hs: seq<Handle>, ops: seq<Operation>, ghost vs: seq<Value>)
    requires Distinct(hs) && Sound(Members(hs)) && Represents(hs, vs) && AllLegal(vs, ops)
    modifies hs, Storages(Members(hs))
    ensures Sound(Members(hs)) && Represents(hs, Run(vs, ops))
    decreases |ops|
  {
    if ops == [] {
    } else {
      var op := ops[0];
      if op.Assign? || op.Move? || op.Swap? {
        Transfer(hs, op, vs);
      } else if op.SetSize? || op.EnsureCapacity? || op.Clear? {
        Reshape(hs, op, vs);
      } else {
        Mutate(hs, op, vs);
      }
      Execute(hs, ops[1..], Apply(vs, ops[0]));
    }
  }

  function AllUnallocated(n: nat): (vs: seq<Value>)
    ensures |vs| == n && forall i :: 0 <= i < n ==> vs[i] == Unallocated
  {
    seq(n, _ => Unallocated)
  }

  /** The same from newly constructed handles. */
  method ExecuteFromNew(n: nat, ops: seq<Operation>) returns (hs: seq<Handle>)
    requires AllLegal(AllUnallocated(n), ops)
    ensures |hs| == n && Distinct(hs) && Sound(Members(hs)) && Represents(hs, Run(AllUnallocated(n), ops))
  {
    hs := NewHandles(n);
    assert Storages(Members(hs)) == {};
    Execute(hs, ops, AllUnallocated(n));
  }

  method NewHandles(n: nat) returns (hs: seq<Handle>)
    ensures |hs| == n && Distinct(hs) && fresh(hs) && forall h <- hs :: h.buffer == null
  {
    hs := [];
    while |hs| < n
      invariant |hs| <= n && Distinct(hs) && fresh(hs) && forall h <- hs :: h.buffer == null
    {
      var h := new Handle();
      assert h !in hs;
      hs := hs + [h];
    }
  }
}
