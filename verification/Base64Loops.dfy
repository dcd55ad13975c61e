/** The loops of base64.cc over their buffers, proved against the functions of Base64. */
module Base64Loops {
  import opened ByteOrder
  import opened Base64

  const PD: byte := 0xFD
  const SP: byte := 0xFE
  const IL: byte := 0xFF

  /** The entries of DecodeTable as bytes. */
  function DecodeTable(c: byte): byte {
    match Classify(c)
    case Value(v) => v
    case Padding => PD
    case Space => SP
    case Illegal => IL
  }

  /** What the encoder's shifts and masks leave of a byte. */
  lemma {:induction false} MaskedShifts(b: int)
    ensures b * 16 % 64 == b % 4 * 16 && b * 4 % 64 == b % 16 * 4
  {
    Remainder64(b / 4, b % 4 * 16);
    Remainder64(b / 16, b % 16 * 4);
    assert b == 4 * (b / 4) + b % 4 && b == 16 * (b / 16) + b % 16;
  }

  lemma {:induction false} Remainder64(q: int, r: int)
    requires 0 <= r < 64
    ensures (64 * q + r) % 64 == r
  {
  }

  /** The four characters for the bytes from `i` on. */
  function FourAt(data: seq<byte>, i: nat): seq<byte>
    requires i < |data|
  {
    var a := data[i];
    if i + 1 == |data| then [Letter(a / 4), Letter(a % 4 * 16), PAD, PAD]
    else
      var b := data[i + 1];
      if i + 2 == |data| then [Letter(a / 4), Letter(a % 4 * 16 + b / 16), Letter(b % 16 * 4), PAD]
      else
        var c := data[i + 2];
        [Letter(a / 4), Letter(a % 4 * 16 + b / 16), Letter(b % 16 * 4 + c / 64), Letter(c % 64)]
  }

  lemma {:induction false} EncodeAt(data: seq<byte>, i: nat, next: nat)
    requires i < |data| && next == if i + 3 <= |data| then i + 3 else |data|
    ensures Encode(data[i..]) == FourAt(data, i) + Encode(data[next..])
  {
    var d := data[i..];
    assert |d| > 2 ==> d[3..] == data[i + 3..];
  }

  /** Four characters for up to three bytes. */
  method EncodeGroup(data: seq<byte>, at: nat, result: array<byte>, dest: nat) returns (i: nat)
    requires at < |data| && dest + 4 <= result.Length
    modifies result
    ensures at < i <= |data|
    ensures result[..dest] == old(result[..dest])
    ensures result[dest..dest + 4] + Encode(data[i..]) == Encode(data[at..])
  {
    i := at;
    var c0 := Letter(data[i] / 4);
    var c := (data[i] as int) * 16 % 64;
    MaskedShifts(data[i]);
    i := i + 1;
    if i < |data| {
      c := c + data[i] / 16;
    }
    var c1, c2, c3 := Letter(c), PAD, PAD;
    if i < |data| {
      c := (data[i] as int) * 4 % 64;
      MaskedShifts(data[i]);
      i := i + 1;
      if i < |data| {
        c := c + data[i] / 64;
      }
      c2 := Letter(c);
    }
    if i < |data| {
      c3 := Letter(data[i] % 64);
      i := i + 1;
    }
    EncodeAt(data, at, i);
    assert [c0, c1, c2, c3] == FourAt(data, at);
    PutFour(result, dest, c0, c1, c2, c3);
  }

  method PutFour(result: array<byte>, dest: nat, c0: byte, c1: byte, c2: byte, c3: byte)
    requires dest + 4 <= result.Length
    modifies result
    ensures result[..dest] == old(result[..dest]) && result[dest..dest + 4] == [c0, c1, c2, c3]
  {
    result[dest], result[dest + 1], result[dest + 2], result[dest + 3] := c0, c1, c2, c3;
  }

  lemma {:induction false} AtLeastFour(data: seq<byte>)
    requires data != []
    ensures |Encode(data)| >= 4
  {
  }

  method EncodeFromArray(data: seq<byte>) returns (result: array<byte>)
    ensures fresh(result) && result[..] == Encode(data)
    ensures LooksEncoded(|data|, result[..])
  {
    EncodedText(data);
    result := new byte[(|data| + 2) / 3 * 4];
    var i, dest := 0, 0;
    assert data[0..] == data;
    while i < |data|
      invariant i <= |data| && dest <= result.Length
      invariant result[..dest] + Encode(data[i..]) == Encode(data)
    {
      AtLeastFour(data[i..]);
      ghost var done := result[..dest];
      i := EncodeGroup(data, i, result, dest);
      ghost var group := result[dest..dest + 4];
      assert result[..dest + 4] == done + group;
      Associate(done, group, Encode(data[i..]));
      dest := dest + 4;
    }
    assert result[..dest] == result[..];
  }

  lemma {:induction false} ScanStep(parse: Parse, illegalPads: bool, s: Scanned)
    requires |s.taken| <= 4
    ensures var a := NextAction(parse, illegalPads, s);
            Scan(parse, illegalPads, s) == if a.Stop? then s else Scan(parse, illegalPads, Apply(s, a))
  {
  }

  lemma {:induction false} QuantumIs(parse: Parse, illegalPads: bool, t: seq<byte>, s: Scanned)
    requires |s.taken| <= 4 && NextAction(parse, illegalPads, s).Stop?
    requires SameScan(parse, illegalPads, s, Begin(t))
    ensures NextQuantum(parse, illegalPads, t) == Finish(s)
  {
    ScanStep(parse, illegalPads, s);
  }

  /** The variables of the scanning loop stand for the state `s` of the scan. */
  ghost predicate Tracks(s: Scanned, data: seq<byte>, dpos: nat, qbuf: seq<byte>, byteLen: nat, padLen: nat, padStart: nat)
  {
    && dpos <= |data| && s.rest == data[dpos..]
    && byteLen == |s.taken| <= |qbuf| == 4 && qbuf[..byteLen] == s.taken
    && padLen == s.pads && (padLen > 0 ==> padStart <= |data| && s.mark == data[padStart..])
  }

  /** One turn of the scanning loop: leave it, or take the action the character calls for. */
  method ScanCharacter(parse: Parse, illegalPads: bool, data: seq<byte>, dpos: nat, qbuf: array<byte>,
                       byteLen: nat, padLen: nat, padStart: nat, ghost s: Scanned)
    returns (stop: bool, nextLen: nat, nextPadLen: nat, nextPadStart: nat)
    requires Tracks(s, data, dpos, qbuf[..], byteLen, padLen, padStart) && byteLen < 4 && dpos < |data|
    modifies qbuf
    ensures var a := NextAction(parse, illegalPads, s);
            && stop == a.Stop?
            && Tracks(Apply(s, a), data, if stop then dpos else dpos + 1, qbuf[..], nextLen, nextPadLen, nextPadStart)
  {
    stop, nextLen, nextPadLen, nextPadStart := false, byteLen, padLen, padStart;
    var code := DecodeTable(data[dpos]);
    qbuf[byteLen] := code;
    if code == IL || (illegalPads && code == PD) {
      stop := parse != Any;
    } else if code == SP {
      stop := parse == Strict;
    } else if code == PD {
      if byteLen < 2 || byteLen + padLen >= 4 {
        stop := parse != Any;
      } else {
        nextPadLen := padLen + 1;
        if nextPadLen == 1 {
          nextPadStart := dpos;
        }
      }
    } else if padLen > 0 && parse != Any {
      stop := true;
    } else {
      nextPadLen, nextLen := 0, byteLen + 1;
    }
  }

  /** The scanning loop, to where it stops. */
  method ScanLoop(parse: Parse, illegalPads: bool, data: seq<byte>, start: nat, qbuf: array<byte>)
    returns (byteLen: nat, dpos: nat, padLen: nat, padStart: nat, ghost s: Scanned)
    requires start <= |data| && qbuf.Length == 4
    modifies qbuf
    ensures Tracks(s, data, dpos, qbuf[..], byteLen, padLen, padStart) && NextAction(parse, illegalPads, s).Stop?
    ensures SameScan(parse, illegalPads, s, Begin(data[start..]))
  {
    byteLen, dpos, padLen, padStart := 0, start, 0, 0;
    s := Begin(data[start..]);
    var stop := false;
    while byteLen < 4 && dpos < |data| && !stop
      invariant Tracks(s, data, dpos, qbuf[..], byteLen, padLen, padStart)
      invariant SameScan(parse, illegalPads, s, Begin(data[start..]))
      invariant stop ==> NextAction(parse, illegalPads, s).Stop?
      decreases |data| - dpos, !stop
    {
      ScanStep(parse, illegalPads, s);
      stop, byteLen, padLen, padStart :=
        ScanCharacter(parse, illegalPads, data, dpos, qbuf, byteLen, padLen, padStart, s);
      s := Apply(s, NextAction(parse, illegalPads, s));
      if !stop {
        dpos := dpos + 1;
      }
    }
  }

  /** The sextets of the next quantum in `qbuf`, filled up with zeros, and the position after it. */
  method GetNextQuantum(parse: Parse, illegalPads: bool, data: seq<byte>, start: nat, qbuf: array<byte>)
    returns (byteLen: nat, dpos: nat, padded: bool)
    requires start <= |data| && qbuf.Length == 4
    modifies qbuf
    ensures var q := NextQuantum(parse, illegalPads, data[start..]);
            && byteLen == |q.sextets| && qbuf[..] == Filled(q.sextets)
            && padded == q.padded && dpos <= |data| && data[dpos..] == q.rest
  {
    var padLen, padStart;
    ghost var s;
    byteLen, dpos, padLen, padStart, s := ScanLoop(parse, illegalPads, data, start, qbuf);
    QuantumIs(parse, illegalPads, data[start..], s);
    FillUp(qbuf, byteLen, s.taken);
    if 4 == byteLen + padLen {
      padded := true;
    } else {
      padded := false;
      if padLen > 0 {
        dpos := padStart;
      }
    }
  }

  /** A quantum in its buffer, the places it does not use set to zero. */
  function Filled(q: seq<Sextet>): (b: seq<byte>)
    requires |q| <= 4
    ensures |b| == 4 && b[..|q|] == q && forall i :: |q| <= i < 4 ==> b[i] == 0
  {
    seq(4, i requires 0 <= i => if i < |q| then q[i] as int else 0)
  }

  method FillUp(qbuf: array<byte>, byteLen: nat, ghost q: seq<Sextet>)
    requires qbuf.Length == 4 && byteLen == |q| <= 4 && qbuf[..byteLen] == q
    modifies qbuf
    ensures qbuf[..] == Filled(q)
  {
    for i := byteLen to 4
      invariant qbuf[..byteLen] == q && forall k :: byteLen <= k < i ==> qbuf[k] == 0
    {
      qbuf[i] := 0;
    }
    assert forall k :: 0 <= k < byteLen ==> qbuf[k] == qbuf[..byteLen][k];
  }

  lemma {:induction false} DecoderShifts(x: int)
    requires 0 <= x < 64
    ensures x * 4 % 256 == x * 4 && x / 16 % 4 == x / 16
    ensures x * 16 % 256 == x % 16 * 16 && x / 4 % 16 == x / 4
    ensures x * 64 % 256 == x % 4 * 64
  {
  }

  /** Appends the bytes a quantum completes; `c` holds the bits that are left. */
  method AppendBytes(qbuf: array<byte>, qlen: nat, result: seq<byte>, ghost q: seq<Sextet>)
    returns (bytes: seq<byte>, c: byte)
    requires qlen == |q| <= 4 && qbuf[..] == Filled(q)
    ensures bytes == result + Bytes(q)
    ensures qlen < 4 ==> c == UnusedBits(q)
  {
    var b0, b1, b2, b3 := qbuf[..][0] as int, qbuf[..][1] as int, qbuf[..][2] as int, qbuf[..][3] as int;
    assert 0 <= b0 < 64 && 0 <= b1 < 64 && 0 <= b2 < 64 && 0 <= b3 < 64;
    DecoderShifts(b0);
    DecoderShifts(b1);
    DecoderShifts(b2);
    bytes := result;
    c := b0 * 4 % 256 + b1 / 16 % 4;
    if qlen >= 2 {
      bytes := bytes + [c];
      c := b1 * 16 % 256 + b2 / 4 % 16;
      if qlen >= 3 {
        bytes := bytes + [c];
        c := b2 * 64 % 256 + b3;
        if qlen >= 4 {
          bytes := bytes + [c];
          c := 0;
        }
      }
    }
  }

  /** What the decoding loop has done so far: the rest of the text is still to come, or, once a
      quantum was not full, nothing is. */
  ghost predicate Progress(f: Flags, data: seq<byte>, used: nat, result: seq<byte>, success: bool, more: bool)
  {
    && used <= |data|
    && var d, t := Decode(f, data), data[used..];
       if more then success && d == Decoded(result + Decode(f, t).bytes, Decode(f, t).ok, Decode(f, t).rest)
       else d == Decoded(result, success, t)
  }

  lemma {:induction false} FullQuantumProgress(f: Flags, data: seq<byte>, used: nat, result: seq<byte>, next: nat)
    requires used < |data| && Progress(f, data, used, result, true, true)
    requires var q := NextQuantum(f.parse, f.pad.Disallowed?, data[used..]);
             |q.sextets| == 4 && next <= |data| && data[next..] == q.rest
    ensures var q := NextQuantum(f.parse, f.pad.Disallowed?, data[used..]);
            Progress(f, data, next, result + Bytes(q.sextets), true, true)
  {
    var q := NextQuantum(f.parse, f.pad.Disallowed?, data[used..]);
    DecodeFull(f, data[used..], q);
    assert result + (Bytes(q.sextets) + Decode(f, q.rest).bytes) == result + Bytes(q.sextets) + Decode(f, q.rest).bytes;
  }

  lemma {:induction false} LastQuantumProgress(f: Flags, data: seq<byte>, used: nat, result: seq<byte>, next: nat, ok: bool)
    requires used < |data| && Progress(f, data, used, result, true, true)
    requires var q := NextQuantum(f.parse, f.pad.Disallowed?, data[used..]);
             && |q.sextets| < 4 && next <= |data| && data[next..] == q.rest
             && ok == ((f.term.Anywhere? || UnusedBits(q.sextets) == 0) && (f.pad.Required? ==> q.padded))
    ensures var q := NextQuantum(f.parse, f.pad.Disallowed?, data[used..]);
            Progress(f, data, next, result + Bytes(q.sextets), ok, false)
  {
  }

  method DecodeFromArray(data: seq<byte>, f: Flags) returns (success: bool, result: seq<byte>, used: nat)
    ensures var d := Decode(f, data);
            result == d.bytes && success == Success(f, data) && used <= |data| && data[used..] == d.rest
  {
    success, result, used := true, [], 0;
    var qbuf := new byte[4];
    var more := true;
    assert data[0..] == data;
    while used < |data| && more
      invariant Progress(f, data, used, result, success, more)
      decreases more, |data| - used
    {
      ghost var from, before := used, result;
      ghost var q := NextQuantum(f.parse, f.pad.Disallowed?, data[from..]);
      var qlen, padded, c;
      qlen, used, padded := GetNextQuantum(f.parse, f.pad == Disallowed, data, used, qbuf);
      result, c := AppendBytes(qbuf, qlen, result, q.sextets);
      if qlen < 4 {
        if f.term != Anywhere && c != 0 {
          success := false;
        }
        if f.pad == Required && !padded {
          success := false;
        }
        more := false;
        LastQuantumProgress(f, data, from, before, used, success);
      } else {
        FullQuantumProgress(f, data, from, before, used);
      }
    }
    if f.term == AtEnd && used != |data| {
      success := false;
    }
  }
}
