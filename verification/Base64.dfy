/** Base64 (base64.cc; section 4 of RFC 4648): the encoding, the quantum scanner with its parse, pad
    and termination flags, and the decoder, as functions of the text. */
module Base64 {
  import opened ByteOrder

  type Sextet = x: int | 0 <= x < 64

  const PAD: byte := 0x3D

  /** The entry of Base64Table. */
  function Letter(v: Sextet): byte {
    if v < 26 then 0x41 + v
    else if v < 52 then 0x61 + (v - 26)
    else if v < 62 then 0x30 + (v - 52)
    else if v == 62 then 0x2B
    else 0x2F
  }

  /** The entry of DecodeTable: a value, or one of pd, sp and il. */
  datatype Symbol = Value(v: Sextet) | Padding | Space | Illegal

  function Classify(c: byte): Symbol {
    if 0x41 <= c <= 0x5A then Value(c - 0x41)
    else if 0x61 <= c <= 0x7A then Value(c - 0x61 + 26)
    else if 0x30 <= c <= 0x39 then Value(c - 0x30 + 52)
    else if c == 0x2B then Value(62)
    else if c == 0x2F then Value(63)
    else if c == PAD then Padding
    else if 9 <= c <= 13 || c == 0x20 then Space
    else Illegal
  }

  /** The two tables are inverse to each other. */
  lemma {:induction false} TablesAgree(v: Sextet, c: byte)
    ensures Classify(Letter(v)) == Value(v)
    ensures Classify(c).Value? ==> Letter(Classify(c).v) == c
    ensures Classify(c).Padding? <==> c == PAD
  {
  }

  const UPPER: string := "ABCDEFGHIJKLMNOPQRSTUVWXYZ"
  const LOWER: string := "abcdefghijklmnopqrstuvwxyz"
  const DIGITS: string := "0123456789"
  const ALPHABET: string := UPPER + LOWER + DIGITS + "+/"

  lemma {:induction false} LetterOfAlphabet(v: Sextet)
    ensures |ALPHABET| == 64 && Letter(v) == ALPHABET[v] as int
  {
    assert v < 26 ==> ALPHABET[v] == UPPER[v];
    assert 26 <= v < 52 ==> ALPHABET[v] == LOWER[v - 26];
    assert 52 <= v < 62 ==> ALPHABET[v] == DIGITS[v - 52];
  }

  /** The tables against the characters of table 1 of RFC 4648: a sextet stands for the letter at its index,
      and every other character is the pad, white space or illegal. */
  lemma {:induction false} TablesAreRfc4648(v: Sextet, c: byte)
    ensures Letter(v) == ALPHABET[v] as int && PAD == '=' as int
    ensures Classify(c).Value? <==> c as char in ALPHABET
    ensures Classify(c).Value? ==> ALPHABET[Classify(c).v] as int == c
    ensures Classify(c).Padding? <==> c as char == '='
    ensures Classify(c).Space? <==> 9 <= c <= 13 || c as char == ' '
  {
    LetterOfAlphabet(v);
    if Classify(c).Value? {
      LetterOfAlphabet(Classify(c).v);
      TablesAgree(Classify(c).v, c);
    } else if c as char in ALPHABET {
      var i :| 0 <= i < |ALPHABET| && ALPHABET[i] == c as char;
      LetterOfAlphabet(i);
      TablesAgree(i, c);
    }
  }

  // ---------------------------------------------------------------------------------------------
  // Groups of bytes as groups of sextets

  function Letters(vs: seq<Sextet>): (t: seq<byte>)
    ensures |t| == |vs| && forall i :: 0 <= i < |vs| ==> t[i] == Letter(vs[i])
  {
    seq(|vs|, i requires 0 <= i < |vs| => Letter(vs[i]))
  }

  function Pads(n: nat): (t: seq<byte>)
    ensures |t| == n && forall i :: 0 <= i < n ==> t[i] == PAD
  {
    seq(n, _ => PAD)
  }

  function Sextets1(a: byte): seq<Sextet> { [a / 4, a % 4 * 16] }

  function Sextets2(a: byte, b: byte): seq<Sextet> { [a / 4, a % 4 * 16 + b / 16, b % 16 * 4] }

  function Sextets3(a: byte, b: byte, c: byte): seq<Sextet> {
    [a / 4, a % 4 * 16 + b / 16, b % 16 * 4 + c / 64, c % 64]
  }

  /** The encoding: four letters for three bytes, the last group filled up with pads. */
  function Encode(data: seq<byte>): seq<byte>
    decreases |data|
  {
    if |data| == 0 then []
    else if |data| == 1 then Letters(Sextets1(data[0])) + Pads(2)
    else if |data| == 2 then Letters(Sextets2(data[0], data[1])) + Pads(1)
    else Letters(Sextets3(data[0], data[1], data[2])) + Encode(data[3..])
  }

  /** Letters, and then `n` characters '='. */
  predicate PaddedText(t: seq<byte>, n: nat) {
    && n <= |t| && (forall i :: 0 <= i < |t| - n ==> Classify(t[i]).Value?)
    && (forall i :: |t| - n <= i < |t| ==> t[i] as char == '=')
  }

  lemma {:induction false} PaddedConcat(vs: seq<Sextet>, t: seq<byte>, n: nat)
    requires PaddedText(t, n)
    ensures PaddedText(Letters(vs) + t, n)
  {
    forall i | 0 <= i < |vs| ensures Classify(Letters(vs)[i]).Value? {
      TablesAgree(vs[i], 0);
    }
  }

  /** How an encoding of `n` bytes looks: letters, and one '=' for each byte missing from the last group
      of three. */
  predicate LooksEncoded(n: nat, t: seq<byte>) {
    |t| == (n + 2) / 3 * 4 && PaddedText(t, (3 - n % 3) % 3)
  }

  lemma {:induction false} LooksEncodedMore(n: nat, vs: seq<Sextet>, t: seq<byte>)
    requires |vs| == 4 && LooksEncoded(n, t)
    ensures LooksEncoded(n + 3, Letters(vs) + t)
  {
    assert (n + 3) % 3 == n % 3;
    PaddedConcat(vs, t, (3 - n % 3) % 3);
  }

  lemma {:induction false} LooksEncodedLast(vs: seq<Sextet>)
    requires 2 <= |vs| <= 3
    ensures LooksEncoded(|vs| - 1, Letters(vs) + Pads(4 - |vs|))
  {
    PaddedConcat(vs, Pads(4 - |vs|), 4 - |vs|);
  }

  lemma {:induction false} EncodedText(data: seq<byte>)
    ensures LooksEncoded(|data|, Encode(data))
    decreases |data|
  {
    if |data| == 0 {
    } else if |data| == 1 {
      LooksEncodedLast(Sextets1(data[0]));
    } else if |data| == 2 {
      LooksEncodedLast(Sextets2(data[0], data[1]));
    } else {
      EncodedText(data[3..]);
      LooksEncodedMore(|data| - 3, Sextets3(data[0], data[1], data[2]), Encode(data[3..]));
    }
  }

  /** The bytes completed by up to four sextets. */
  function Bytes(q: seq<Sextet>): (b: seq<byte>)
    requires |q| <= 4
    ensures |b| == if |q| < 2 then 0 else |q| - 1
  {
    if |q| < 2 then []
    else
      var (x, y) := (q[0] as int, q[1] as int);
      var b0 := x * 4 + y / 16;
      if |q| == 2 then [b0]
      else
        var z := q[2] as int;
        var b1 := y % 16 * 16 + z / 4;
        if |q| == 3 then [b0, b1] else [b0, b1, z % 4 * 64 + q[3] as int]
  }

  /** The bits of the sextets that reach no complete byte, where they stand in the next one. */
  function UnusedBits(q: seq<Sextet>): byte
    requires |q| < 4
  {
    if |q| == 0 then 0
    else if |q| == 1 then (q[0] as int) * 4
    else if |q| == 2 then (q[1] as int) % 16 * 16
    else (q[2] as int) % 4 * 64
  }

  lemma {:induction false} BytesOfSextets(a: byte, b: byte, c: byte)
    ensures Bytes(Sextets1(a)) == [a] && UnusedBits(Sextets1(a)) == 0
    ensures Bytes(Sextets2(a, b)) == [a, b] && UnusedBits(Sextets2(a, b)) == 0
    ensures Bytes(Sextets3(a, b, c)) == [a, b, c]
  {
  }

  /** The halves of a byte made of two parts. */
  lemma {:induction false} Parts(x: int, y: int)
    ensures 0 <= y < 4 ==> (x * 4 + y) / 4 == x && (x * 4 + y) % 4 == y
    ensures 0 <= y < 16 ==> (x * 16 + y) / 16 == x && (x * 16 + y) % 16 == y
    ensures 0 <= y < 64 ==> (x * 64 + y) / 64 == x && (x * 64 + y) % 64 == y
  {
  }

  lemma {:induction false} Sextets1OfBytes(q: seq<Sextet>)
    requires |q| == 2 && UnusedBits(q) == 0
    ensures q == Sextets1(Bytes(q)[0])
  {
    Parts(q[0], q[1] / 16);
  }

  lemma {:induction false} Sextets2OfBytes(q: seq<Sextet>)
    requires |q| == 3 && UnusedBits(q) == 0
    ensures q == Sextets2(Bytes(q)[0], Bytes(q)[1])
  {
    Parts(q[0], q[1] / 16);
    Parts(q[1] % 16, q[2] / 4);
  }

  lemma {:induction false} Sextets3OfBytes(q: seq<Sextet>)
    requires |q| == 4
    ensures q == Sextets3(Bytes(q)[0], Bytes(q)[1], Bytes(q)[2])
  {
    Parts(q[0], q[1] / 16);
    Parts(q[1] % 16, q[2] / 4);
    Parts(q[2] % 4, q[3]);
  }

  /** No bits are left over exactly when the sextets are those of whole bytes, or are nothing but zeros. */
  lemma {:induction false} NoBitsLeftIff(q: seq<Sextet>)
    requires |q| < 4
    ensures UnusedBits(q) == 0 <==>
              if |q| < 2 then forall i :: 0 <= i < |q| ==> q[i] == 0
              else q == if |q| == 2 then Sextets1(Bytes(q)[0]) else Sextets2(Bytes(q)[0], Bytes(q)[1])
  {
    if |q| == 2 {
      Parts(q[0], q[1] / 16);
    } else if |q| == 3 {
      Parts(q[0], q[1] / 16);
      Parts(q[1] % 16, q[2] / 4);
    }
  }

  // ---------------------------------------------------------------------------------------------
  // Scanning

  datatype Parse = Strict | White | Any
  datatype Pad = Required | Optional | Disallowed
  datatype Term = AtEnd | AtCharacter | Anywhere
  datatype Flags = Flags(parse: Parse, pad: Pad, term: Term)

  /** What one character does to the scan. */
  datatype Action = Stop | Skip | CountPad | Take(v: Sextet)

  function Act(parse: Parse, illegalPads: bool, c: byte, taken: nat, pads: nat): Action {
    var k := Classify(c);
    if k.Illegal? || (illegalPads && k.Padding?) then (if parse.Any? then Skip else Stop)
    else if k.Space? then (if parse.Strict? then Stop else Skip)
    else if k.Padding? then
      if taken < 2 || taken + pads >= 4 then (if parse.Any? then Skip else Stop)
      else CountPad
    else if pads > 0 && !parse.Any? then Stop
    else Take(k.v)
  }

  /** The loop of GetNextQuantum on the text still to be scanned: the sextets taken, the pads
      counted, and the text from the first of those pads on. */
  datatype Scanned = Scanned(taken: seq<Sextet>, pads: nat, mark: seq<byte>, rest: seq<byte>)

  function NextAction(parse: Parse, illegalPads: bool, s: Scanned): Action {
    if |s.taken| == 4 || s.rest == [] then Stop
    else Act(parse, illegalPads, s.rest[0], |s.taken|, s.pads)
  }

  function Apply(s: Scanned, a: Action): Scanned
    requires s.rest != []
  {
    match a
    case Stop => s
    case Skip => s.(rest := s.rest[1..])
    case CountPad => s.(pads := s.pads + 1, mark := if s.pads == 0 then s.rest else s.mark, rest := s.rest[1..])
    case Take(v) => s.(taken := s.taken + [v], pads := 0, rest := s.rest[1..])
  }

  function Scan(parse: Parse, illegalPads: bool, s: Scanned): (r: Scanned)
    requires |s.taken| <= 4
    ensures s.taken <= r.taken && |r.taken| <= 4
    ensures |r.rest| + |r.taken| <= |s.rest| + |s.taken|
    ensures |s.taken| < 4 && |r.taken| == 4 ==> r.pads == 0
    decreases |s.rest|
  {
    var a := NextAction(parse, illegalPads, s);
    if a.Stop? then s else Scan(parse, illegalPads, Apply(s, a))
  }

  /** A quantum: its sextets, whether it is complete with its pads, and the text after it. */
  datatype Quantum = Quantum(sextets: seq<Sextet>, padded: bool, rest: seq<byte>)

  /** Pads that do not complete a quantum are rolled back. */
  function Finish(s: Scanned): Quantum {
    if |s.taken| + s.pads == 4 then Quantum(s.taken, true, s.rest)
    else Quantum(s.taken, false, if s.pads > 0 then s.mark else s.rest)
  }

  function Begin(t: seq<byte>): Scanned { Scanned([], 0, [], t) }

  function NextQuantum(parse: Parse, illegalPads: bool, t: seq<byte>): (q: Quantum)
    ensures |q.sextets| <= 4
    ensures |q.sextets| == 4 ==> |q.rest| < |t|
  {
    Finish(Scan(parse, illegalPads, Begin(t)))
  }

  // ---------------------------------------------------------------------------------------------
  // Decoding

  /** The bytes, whether the quanta were acceptable, and the text not used. */
  datatype Decoded = Decoded(bytes: seq<byte>, ok: bool, rest: seq<byte>)

  /** Whether the flags accept a quantum of fewer than four sextets. */
  predicate ShortOk(f: Flags, q: Quantum)
    requires |q.sextets| < 4
  {
    (f.term.Anywhere? || UnusedBits(q.sextets) == 0) && (f.pad.Required? ==> q.padded)
  }

  function Decode(f: Flags, t: seq<byte>): Decoded
    decreases |t|
  {
    if t == [] then Decoded([], true, [])
    else
      var q := NextQuantum(f.parse, f.pad.Disallowed?, t);
      if |q.sextets| == 4 then
        var d := Decode(f, q.rest);
        Decoded(Bytes(q.sextets) + d.bytes, d.ok, d.rest)
      else
        Decoded(Bytes(q.sextets), ShortOk(f, q), q.rest)
  }

  predicate Success(f: Flags, t: seq<byte>) {
    Decode(f, t).ok && (f.term.AtEnd? ==> Decode(f, t).rest == [])
  }

  // ---------------------------------------------------------------------------------------------
  // Every encoding decodes to its bytes, under every combination of flags

  lemma {:induction false} LettersCons(vs: seq<Sextet>, t: seq<byte>)
    requires vs != []
    ensures Letters(vs) == [Letter(vs[0])] + Letters(vs[1..])
    ensures Letters(vs) + t == [Letter(vs[0])] + (Letters(vs[1..]) + t)
  {
  }

  lemma {:induction false} Associate<T>(a: seq<T>, b: seq<T>, c: seq<T>)
    ensures (a + b) + c == a + (b + c)
  {
  }

  ghost predicate SameScan(parse: Parse, illegalPads: bool, s: Scanned, n: Scanned) {
    |s.taken| <= 4 && |n.taken| <= 4 && Scan(parse, illegalPads, s) == Scan(parse, illegalPads, n)
  }

  lemma {:induction false} ScanLetter(parse: Parse, illegalPads: bool, s: Scanned, v: Sextet, rest: seq<byte>)
    requires |s.taken| < 4 && s.pads == 0 && s.rest == [Letter(v)] + rest
    ensures SameScan(parse, illegalPads, s, s.(taken := s.taken + [v], rest := rest))
  {
    TablesAgree(v, 0);
    assert s.rest[1..] == rest;
    assert Apply(s, Take(v)) == s.(taken := s.taken + [v], rest := rest);
  }

  lemma {:induction false} SameScanThen(parse: Parse, illegalPads: bool, a: Scanned, b: Scanned, c: Scanned)
    requires SameScan(parse, illegalPads, a, b) && SameScan(parse, illegalPads, b, c)
    ensures SameScan(parse, illegalPads, a, c)
  {
  }

  lemma {:induction false} ScanLetters(parse: Parse, illegalPads: bool, s: Scanned, vs: seq<Sextet>, t: seq<byte>)
    requires |s.taken| + |vs| <= 4 && s.pads == 0 && s.rest == Letters(vs) + t
    ensures SameScan(parse, illegalPads, s, s.(taken := s.taken + vs, rest := t))
    decreases |vs|
  {
    var end := s.(taken := s.taken + vs, rest := t);
    if vs == [] {
      assert end == s;
    } else {
      LettersCons(vs, t);
      ScanLetter(parse, illegalPads, s, vs[0], Letters(vs[1..]) + t);
      var n := s.(taken := s.taken + [vs[0]], rest := Letters(vs[1..]) + t);
      ScanLetters(parse, illegalPads, n, vs[1..], t);
      assert [vs[0]] + vs[1..] == vs;
      Associate(s.taken, [vs[0]], vs[1..]);
      assert n.(taken := n.taken + vs[1..], rest := t) == end;
      SameScanThen(parse, illegalPads, s, n, end);
    }
  }

  /** What becomes of pads that complete a quantum at the end of the text. */
  lemma {:induction false} ScanPads(parse: Parse, illegalPads: bool, s: Scanned)
    requires 2 <= |s.taken| && |s.taken| + s.pads + |s.rest| == 4 && s.rest == Pads(|s.rest|)
    ensures PadsScanned(parse, illegalPads, s, Scan(parse, illegalPads, s))
    decreases |s.rest|
  {
    if s.rest == [] {
    } else {
      assert s.rest[1..] == Pads(|s.rest| - 1);
      if !illegalPads {
        ScanPads(parse, illegalPads, Apply(s, CountPad));
      } else if parse.Any? {
        ScanSkippedPads(s);
      }
    }
  }

  ghost predicate PadsScanned(parse: Parse, illegalPads: bool, s: Scanned, r: Scanned) {
    && r.taken == s.taken
    && (if !illegalPads then r.pads == s.pads + |s.rest| && r.rest == []
        else r.pads == s.pads && r.rest == if parse.Any? then [] else s.rest)
  }

  lemma {:induction false} ScanSkippedPads(s: Scanned)
    requires |s.taken| <= 4 && s.rest == Pads(|s.rest|)
    ensures |s.taken| < 4 ==> Scan(Any, true, s) == s.(rest := [])
    decreases |s.rest|
  {
    if s.rest == [] || |s.taken| == 4 {
    } else {
      assert s.rest[1..] == Pads(|s.rest| - 1);
      ScanSkippedPads(Apply(s, Skip));
    }
  }

  /** The last group of an encoding. */
  lemma {:induction false} LastQuantum(parse: Parse, illegalPads: bool, vs: seq<Sextet>)
    requires |vs| == 2 || |vs| == 3
    ensures var q := NextQuantum(parse, illegalPads, Letters(vs) + Pads(4 - |vs|));
            && q.sextets == vs && q.padded == !illegalPads
            && (q.rest == [] <==> parse.Any? || !illegalPads)
  {
    var t := Pads(4 - |vs|);
    var b := Begin(Letters(vs) + t);
    ScanLetters(parse, illegalPads, b, vs, t);
    assert b.taken + vs == vs;
    ScanPads(parse, illegalPads, b.(taken := b.taken + vs, rest := t));
  }

  lemma {:induction false} FullQuantum(parse: Parse, illegalPads: bool, vs: seq<Sextet>, t: seq<byte>)
    requires |vs| == 4
    ensures NextQuantum(parse, illegalPads, Letters(vs) + t) == Quantum(vs, true, t)
  {
    var b := Begin(Letters(vs) + t);
    ScanLetters(parse, illegalPads, b, vs, t);
    assert b.taken + vs == vs;
  }

  /** The bytes come back and all text is used, except pads that the flags do not allow. */
  ghost predicate Recovered(f: Flags, data: seq<byte>, d: Decoded) {
    && d.bytes == data && d.ok
    && (d.rest == [] <==> |data| % 3 == 0 || f.parse.Any? || !f.pad.Disallowed?)
  }

  lemma {:induction false} RecoveredMore(f: Flags, data: seq<byte>, d: Decoded, e: Decoded)
    requires |data| > 2 && Recovered(f, data[3..], e)
    requires d.bytes == [data[0], data[1], data[2]] + e.bytes && d.ok == e.ok && d.rest == e.rest
    ensures Recovered(f, data, d)
  {
  }

  lemma {:induction false} RoundTrip(f: Flags, data: seq<byte>)
    ensures Recovered(f, data, Decode(f, Encode(data)))
    decreases |data|
  {
    if |data| > 2 {
      RoundTrip(f, data[3..]);
      RoundTripFull(f, data);
    } else if |data| > 0 {
      RoundTripLast(f, data);
    } else {
      assert Encode(data) == [];
    }
  }

  lemma {:induction false} RoundTripFull(f: Flags, data: seq<byte>)
    requires |data| > 2 && Recovered(f, data[3..], Decode(f, Encode(data[3..])))
    ensures Recovered(f, data, Decode(f, Encode(data)))
  {
    var q := Sextets3(data[0], data[1], data[2]);
    BytesOfSextets(data[0], data[1], data[2]);
    FullQuantum(f.parse, f.pad.Disallowed?, q, Encode(data[3..]));
    DecodeFull(f, Encode(data), Quantum(q, true, Encode(data[3..])));
    RecoveredMore(f, data, Decode(f, Encode(data)), Decode(f, Encode(data[3..])));
  }

  lemma {:induction false} DecodeFull(f: Flags, t: seq<byte>, q: Quantum)
    requires q == NextQuantum(f.parse, f.pad.Disallowed?, t) && |q.sextets| == 4
    ensures var d, e := Decode(f, t), Decode(f, q.rest);
            d.bytes == Bytes(q.sextets) + e.bytes && d.ok == e.ok && d.rest == e.rest
  {
  }

  lemma {:induction false} RoundTripLast(f: Flags, data: seq<byte>)
    requires |data| == 1 || |data| == 2
    ensures Recovered(f, data, Decode(f, Encode(data)))
  {
    BytesOfSextets(data[0], if |data| == 1 then 0 else data[1], 0);
    var q := if |data| == 1 then Sextets1(data[0]) else Sextets2(data[0], data[1]);
    LastQuantum(f.parse, f.pad.Disallowed?, q);
    assert Encode(data) == Letters(q) + Pads(4 - |q|);
  }

  // ---------------------------------------------------------------------------------------------
  // Strict decoding accepts nothing else

  const STRICT := Flags(Strict, Required, AtEnd)

  /** Between `s` and `r` the scan passed over letters, then pads, and nothing else. */
  ghost predicate LettersThenPads(s: Scanned, r: Scanned) {
    && s.taken <= r.taken && r.pads >= s.pads && (s.pads > 0 ==> r.taken == s.taken) && (r.pads > 0 ==> |r.taken| >= 2)
    && s.rest == Letters(r.taken[|s.taken|..]) + Pads(r.pads - s.pads) + r.rest
  }

  lemma {:induction false} StrictStep(s: Scanned, r: Scanned, a: Action)
    requires s.rest != [] && (a == CountPad || a.Take?) && s.rest[0] == if a.Take? then Letter(a.v) else PAD
    requires LettersThenPads(Apply(s, a), r) && (a.Take? ==> s.pads == 0)
    ensures LettersThenPads(s, r)
  {
    var k, c, t := |s.taken|, s.rest[0], s.rest[1..];
    assert s.rest == [c] + t;
    if a.Take? {
      assert r.taken[k..] == [a.v] + r.taken[k + 1..];
      LettersCons(r.taken[k..], []);
      Regroup(c, Letters(r.taken[k + 1..]), Pads(r.pads), r.rest);
    } else {
      assert Letters(r.taken[k..]) == [];
      assert Pads(r.pads - s.pads) == [PAD] + Pads(r.pads - s.pads - 1);
      Regroup(c, [], Pads(r.pads - s.pads - 1), r.rest);
    }
  }

  lemma {:induction false} Regroup(c: byte, a: seq<byte>, b: seq<byte>, d: seq<byte>)
    ensures [c] + (a + b + d) == ([c] + a) + b + d
    ensures a == [] ==> [c] + (a + b + d) == a + ([c] + b) + d
  {
  }

  lemma {:induction false} ScanStrict(illegalPads: bool, s: Scanned)
    requires |s.taken| <= 4 && (s.pads > 0 ==> |s.taken| >= 2)
    ensures LettersThenPads(s, Scan(Strict, illegalPads, s))
    decreases |s.rest|
  {
    var a := NextAction(Strict, illegalPads, s);
    if a.Stop? {
      assert Letters(s.taken[|s.taken|..]) + Pads(0) + s.rest == s.rest;
    } else {
      TablesAgree(0, s.rest[0]);
      ScanStrict(illegalPads, Apply(s, a));
      StrictStep(s, Scan(Strict, illegalPads, s), a);
    }
  }

  lemma {:induction false} StrictQuantum(illegalPads: bool, t: seq<byte>)
    ensures var q := NextQuantum(Strict, illegalPads, t);
            && (|q.sextets| == 4 ==> t == Letters(q.sextets) + q.rest)
            && (|q.sextets| < 4 && q.padded ==> |q.sextets| >= 2 && t == Letters(q.sextets) + Pads(4 - |q.sextets|) + q.rest)
  {
    ScanStrict(illegalPads, Begin(t));
    var r := Scan(Strict, illegalPads, Begin(t));
    assert r.taken[0..] == r.taken;
    assert Letters(r.taken) + Pads(0) == Letters(r.taken);
  }

  lemma {:induction false} StrictRebuilds(t: seq<byte>)
    requires Success(STRICT, t)
    ensures t == Encode(Decode(STRICT, t).bytes)
    decreases |t|
  {
    if t == [] {
    } else {
      var q := NextQuantum(Strict, false, t);
      StrictQuantum(false, t);
      var b := Bytes(q.sextets);
      if |q.sextets| == 4 {
        StrictRebuilds(q.rest);
        Sextets3OfBytes(q.sextets);
        var rest := Decode(STRICT, q.rest).bytes;
        assert (b + rest)[3..] == rest;
      } else if |q.sextets| == 2 {
        Sextets1OfBytes(q.sextets);
      } else {
        Sextets2OfBytes(q.sextets);
      }
    }
  }

  /** Strict decoding succeeds exactly on the encodings of what it returns. */
  lemma {:induction false} StrictIsExact(t: seq<byte>)
    ensures Success(STRICT, t) <==> t == Encode(Decode(STRICT, t).bytes)
  {
    if Success(STRICT, t) {
      StrictRebuilds(t);
    } else {
      RoundTrip(STRICT, Decode(STRICT, t).bytes);
    }
  }

  // ---------------------------------------------------------------------------------------------
  // Strict parsing under every pad and termination flag, against a definition without a scanner

  /** The text does not go on with a letter. */
  predicate NoLetter(t: seq<byte>) { t == [] || !Classify(t[0]).Value? }

  predicate StartsWithPads(t: seq<byte>, n: nat) { n <= |t| && t[..n] == Pads(n) }

  /** The letters a text starts with. */
  function LeadingLetters(t: seq<byte>): (vs: seq<Sextet>)
    ensures |vs| <= |t|
    ensures t[..|vs|] == Letters(vs) && NoLetter(t[|vs|..])
    decreases |t|
  {
    if NoLetter(t) then []
    else
      TablesAgree(0, t[0]);
      var vs := LeadingLetters(t[1..]);
      assert t[1..][|vs|..] == t[|vs| + 1..];
      [Classify(t[0]).v] + vs
  }

  /** The pads that complete the last quantum of `n` letters, if they are there and allowed. */
  function PadsUsed(f: Flags, n: nat, t: seq<byte>): nat {
    if !f.pad.Disallowed? && n % 4 >= 2 && StartsWithPads(t, 4 - n % 4) then 4 - n % 4 else 0
  }

  /** What the flags make of letters `vs` followed by `t`. */
  function Reference(f: Flags, vs: seq<Sextet>, t: seq<byte>): Decoded {
    var pads := PadsUsed(f, |vs|, t);
    var ok := && (f.term.Anywhere? || UnusedBits(Leftover(vs)) == 0)
              && (f.pad.Required? ==> pads > 0 || (|vs| % 4 == 0 && t == []));
    assert pads <= |t|;
    Decoded(Ungroup(vs), ok, t[pads..])
  }

  /** A scan of `taken` that met the text `u`, starting with a pad, ended in `r`. */
  ghost predicate EndsPadRun(taken: seq<Sextet>, u: seq<byte>, r: Scanned) {
    && |taken| < 4 && r.taken == taken && r.mark == u && r.pads > 0 && u == Pads(r.pads) + r.rest
    && (|taken| + r.pads == 4 <==> StartsWithPads(u, 4 - |taken|))
  }

  /** Pads are counted until the quantum is complete or something else comes. */
  lemma {:induction false} ScanPadRun(s: Scanned, u: seq<byte>)
    requires 2 <= |s.taken| < 4 && s.pads > 0 && |s.taken| + s.pads <= 4 && s.mark == u
    requires u == Pads(s.pads) + s.rest
    ensures EndsPadRun(s.taken, u, Scan(Strict, false, s))
    decreases |s.rest|
  {
    var a := NextAction(Strict, false, s);
    var n := 4 - |s.taken|;
    if a.Stop? {
      if s.pads < n && s.rest != [] {
        assert u[s.pads] == s.rest[0] != PAD;
        assert n <= |u| ==> u[..n][s.pads] != PAD;
      } else if s.pads == n {
        assert u[..n] == Pads(n);
      }
    } else {
      TablesAgree(0, s.rest[0]);
      assert u == Pads(s.pads + 1) + s.rest[1..];
      ScanPadRun(Apply(s, a), u);
    }
  }

  /** A quantum of fewer than four letters, with the pads that complete it if they are there. */
  function WithPads(illegalPads: bool, vs: seq<Sextet>, u: seq<byte>): Quantum
    requires |vs| < 4
  {
    if !illegalPads && |vs| >= 2 && StartsWithPads(u, 4 - |vs|) then Quantum(vs, true, u[4 - |vs|..])
    else Quantum(vs, false, u)
  }

  lemma {:induction false} FinishPadRun(taken: seq<Sextet>, u: seq<byte>, r: Scanned)
    requires |taken| >= 2 && EndsPadRun(taken, u, r)
    ensures Finish(r) == WithPads(false, taken, u)
  {
    assert r.rest == u[r.pads..];
  }

  lemma {:induction false} FirstPad(s: Scanned)
    requires 2 <= |s.taken| < 4 && s.pads == 0 && s.rest != [] && s.rest[0] == PAD
    ensures Finish(Scan(Strict, false, s)) == WithPads(false, s.taken, s.rest)
  {
    var n := Apply(s, CountPad);
    assert SameScan(Strict, false, s, n);
    assert s.rest == Pads(1) + s.rest[1..];
    ScanPadRun(n, s.rest);
    FinishPadRun(s.taken, s.rest, Scan(Strict, false, n));
  }

  lemma {:induction false} ShortQuantum(illegalPads: bool, vs: seq<Sextet>, u: seq<byte>)
    requires |vs| < 4 && NoLetter(u)
    ensures NextQuantum(Strict, illegalPads, Letters(vs) + u) == WithPads(illegalPads, vs, u)
  {
    var b := Begin(Letters(vs) + u);
    ScanLetters(Strict, illegalPads, b, vs, u);
    assert b.taken + vs == vs;
    var s := b.(taken := vs, rest := u);
    if !illegalPads && |vs| >= 2 && u != [] && u[0] == PAD {
      FirstPad(s);
    } else {
      StopsAtOnce(illegalPads, s);
    }
  }

  lemma {:induction false} StopsAtOnce(illegalPads: bool, s: Scanned)
    requires |s.taken| < 4 && s.pads == 0 && NoLetter(s.rest)
    requires illegalPads || |s.taken| < 2 || s.rest == [] || s.rest[0] != PAD
    ensures Finish(Scan(Strict, illegalPads, s)) == WithPads(illegalPads, s.taken, s.rest)
  {
    assert NextAction(Strict, illegalPads, s).Stop?;
    var n := 4 - |s.taken|;
    assert StartsWithPads(s.rest, n) ==> s.rest[..n][0] == PAD;
  }

  lemma {:induction false} ReferenceFull(f: Flags, vs: seq<Sextet>, u: seq<byte>)
    requires |vs| >= 4
    ensures var d, e := Reference(f, vs, u), Reference(f, vs[4..], u);
            d == Decoded(Bytes(vs[..4]) + e.bytes, e.ok, e.rest)
  {
    assert |vs| % 4 == |vs[4..]| % 4;
  }

  lemma {:induction false} ReferenceShort(f: Flags, vs: seq<Sextet>, u: seq<byte>)
    requires f.parse.Strict? && |vs| < 4 && NoLetter(u)
    ensures Decode(f, Letters(vs) + u) == Reference(f, vs, u)
  {
    var t := Letters(vs) + u;
    if t != [] {
      ShortQuantum(f.pad.Disallowed?, vs, u);
      DecodeShort(f, t, WithPads(f.pad.Disallowed?, vs, u));
      ReferenceOfShort(f, vs, u);
    } else {
      assert vs == [] && u == [];
    }
  }

  lemma {:induction false} ReferenceOfShort(f: Flags, vs: seq<Sextet>, u: seq<byte>)
    requires |vs| < 4 && !(vs == [] && u == [])
    ensures var q := WithPads(f.pad.Disallowed?, vs, u);
            Reference(f, vs, u) == Decoded(Bytes(vs), ShortOk(f, q), q.rest)
  {
  }

  lemma {:induction false} DecodeShort(f: Flags, t: seq<byte>, q: Quantum)
    requires t != [] && q == NextQuantum(f.parse, f.pad.Disallowed?, t) && |q.sextets| < 4
    ensures Decode(f, t) == Decoded(Bytes(q.sextets), ShortOk(f, q), q.rest)
  {
  }

  /** Strict parsing decodes the letters a text starts with and the pads that complete them. */
  lemma {:induction false} StrictIsReference(f: Flags, vs: seq<Sextet>, u: seq<byte>)
    requires f.parse.Strict? && NoLetter(u)
    ensures Decode(f, Letters(vs) + u) == Reference(f, vs, u)
    decreases |vs|
  {
    if |vs| < 4 {
      ReferenceShort(f, vs, u);
    } else {
      var rest := Letters(vs[4..]) + u;
      assert vs == vs[..4] + vs[4..];
      LettersConcat(vs[..4], vs[4..], u);
      FullQuantum(Strict, f.pad.Disallowed?, vs[..4], rest);
      DecodeFull(f, Letters(vs) + u, Quantum(vs[..4], true, rest));
      StrictIsReference(f, vs[4..], u);
      ReferenceFull(f, vs, u);
    }
  }

  lemma {:induction false} LettersConcat(a: seq<Sextet>, b: seq<Sextet>, t: seq<byte>)
    ensures Letters(a + b) + t == Letters(a) + (Letters(b) + t)
  {
  }

  /** The same for any text. */
  lemma {:induction false} StrictDecodes(f: Flags, t: seq<byte>)
    requires f.parse.Strict?
    ensures var vs := LeadingLetters(t); Decode(f, t) == Reference(f, vs, t[|vs|..])
  {
    var vs := LeadingLetters(t);
    assert t == Letters(vs) + t[|vs|..];
    StrictIsReference(f, vs, t[|vs|..]);
  }

  // ---------------------------------------------------------------------------------------------
  // Lenient decoding sees only the letters

  /** The values of the letters of a text, everything else left out. */
  function Values(t: seq<byte>): (vs: seq<Sextet>)
    ensures |vs| <= |t|
    decreases |t|
  {
    if t == [] then []
    else (if Classify(t[0]).Value? then [Classify(t[0]).v] else []) + Values(t[1..])
  }

  function Ungroup(vs: seq<Sextet>): seq<byte>
    decreases |vs|
  {
    if |vs| < 4 then Bytes(vs) else Bytes(vs[..4]) + Ungroup(vs[4..])
  }

  function Leftover(vs: seq<Sextet>): (l: seq<Sextet>)
    ensures |l| < 4
    decreases |vs|
  {
    if |vs| < 4 then vs else Leftover(vs[4..])
  }

  lemma {:induction false} TakeHead(taken: seq<Sextet>, v: Sextet, w: seq<Sextet>, n: nat)
    requires 1 <= n <= |w| + 1
    ensures taken + [v] + w[..n - 1] == taken + ([v] + w)[..n]
    ensures w[n - 1..] == ([v] + w)[n..]
  {
  }

  /** Between `s` and `r` the scan took the values of the first letters, up to four. */
  ghost predicate TookLetters(s: Scanned, r: Scanned, n: nat) {
    && |s.taken| <= 4 && n == (if 4 - |s.taken| <= |Values(s.rest)| then 4 - |s.taken| else |Values(s.rest)|)
    && r.taken == s.taken + Values(s.rest)[..n]
    && (if |r.taken| == 4 then Values(r.rest) == Values(s.rest)[n..] else r.rest == [])
  }

  lemma {:induction false} AnyStep(s: Scanned, r: Scanned, a: Action, n: nat)
    requires |s.taken| < 4 && s.rest != [] && !a.Stop?
    requires if a.Take? then Classify(s.rest[0]) == Value(a.v) else !Classify(s.rest[0]).Value?
    requires TookLetters(Apply(s, a), r, n)
    ensures TookLetters(s, r, if a.Take? then n + 1 else n)
  {
    var w := Values(s.rest[1..]);
    if a.Take? {
      assert Values(s.rest) == [a.v] + w;
      TakeHead(s.taken, a.v, w, n + 1);
    } else {
      assert Values(s.rest) == w;
    }
  }

  lemma {:induction false} ScanAny(illegalPads: bool, s: Scanned) returns (n: nat)
    requires |s.taken| <= 4
    ensures TookLetters(s, Scan(Any, illegalPads, s), n)
    decreases |s.rest|
  {
    var a := NextAction(Any, illegalPads, s);
    if a.Stop? {
      n := 0;
    } else {
      n := ScanAny(illegalPads, Apply(s, a));
      AnyStep(s, Scan(Any, illegalPads, s), a, n);
      n := if a.Take? then n + 1 else n;
    }
  }

  // What is left to say concerns the text after the last letter.

  /** The text after the last letter. */
  function Tail(t: seq<byte>): (u: seq<byte>)
    ensures |u| <= |t| && Values(u) == []
    decreases |t|
  {
    if Values(t) == [] then t else Tail(t[1..])
  }

  function PadCount(t: seq<byte>): nat
    decreases |t|
  {
    if t == [] then 0 else (if t[0] == PAD then 1 else 0) + PadCount(t[1..])
  }

  function FromFirstPad(t: seq<byte>): seq<byte>
    decreases |t|
  {
    if t == [] || t[0] == PAD then t else FromFirstPad(t[1..])
  }

  /** The pads that count for a quantum of `n` sextets, of `pads` so far and those of `t`. */
  function CountedPads(illegalPads: bool, n: nat, pads: nat, t: seq<byte>): nat
    requires n < 4
  {
    if illegalPads || n < 2 then 0
    else if pads + PadCount(t) <= 4 - n then pads + PadCount(t)
    else 4 - n
  }

  /** What the flags make of the letters `vs` of a text, with `t` after the last of them. */
  function LenientReference(f: Flags, vs: seq<Sextet>, t: seq<byte>): Decoded {
    var n := |vs| % 4;
    var pads := CountedPads(f.pad.Disallowed?, n, 0, t);
    var ok := && (f.term.Anywhere? || UnusedBits(Leftover(vs)) == 0)
              && (f.pad.Required? ==> n + pads == 4 || (n == 0 && t == []));
    Decoded(Ungroup(vs), ok, if pads == 0 || n + pads == 4 then [] else FromFirstPad(t))
  }

  /** How a lenient scan that runs to the end of a text without letters ends. */
  ghost predicate EndsWithPads(illegalPads: bool, s: Scanned, r: Scanned) {
    && |s.taken| < 4 && r.taken == s.taken && r.rest == []
    && r.pads == CountedPads(illegalPads, |s.taken|, s.pads, s.rest)
    && (r.pads > 0 ==> r.mark == if s.pads > 0 then s.mark else FromFirstPad(s.rest))
  }

  ghost predicate PadsInBounds(illegalPads: bool, s: Scanned) {
    |s.taken| < 4 && |s.taken| + s.pads <= 4 && (illegalPads || |s.taken| < 2 ==> s.pads == 0)
  }

  lemma {:induction false} ScanAnyTail(illegalPads: bool, s: Scanned)
    requires PadsInBounds(illegalPads, s) && Values(s.rest) == []
    ensures EndsWithPads(illegalPads, s, Scan(Any, illegalPads, s))
    decreases |s.rest|
  {
    if s.rest == [] {
    } else {
      var a := NextAction(Any, illegalPads, s);
      TablesAgree(0, s.rest[0]);
      ScanAnyTail(illegalPads, Apply(s, a));
    }
  }

  /** How a lenient scan that runs to the end ends, with sextets `taken` and `t` after the last letter. */
  ghost predicate EndsAfter(illegalPads: bool, taken: seq<Sextet>, t: seq<byte>, r: Scanned) {
    && |taken| < 4 && r.taken == taken && r.rest == []
    && r.pads == CountedPads(illegalPads, |taken|, 0, t)
    && (r.pads > 0 ==> r.mark == FromFirstPad(t))
  }

  /** A step of a lenient scan towards the last letter. */
  lemma {:induction false} TailStep(s: Scanned, a: Action)
    requires s.rest != [] && Values(s.rest) != [] && !a.Stop?
    requires if a.Take? then Classify(s.rest[0]) == Value(a.v) else !Classify(s.rest[0]).Value?
    ensures var n := Apply(s, a);
            && n.taken + Values(n.rest) == s.taken + Values(s.rest)
            && Tail(s.rest) == Tail(n.rest)
            && (Values(n.rest) == [] ==> a.Take? && Tail(n.rest) == n.rest)
  {
    var t := s.rest[1..];
    TailOf(s.rest, t);
    if a.Take? {
      assert Values(s.rest) == [a.v] + Values(t);
      Associate(s.taken, [a.v], Values(t));
    } else {
      assert Values(s.rest) == Values(t);
    }
  }

  lemma {:induction false} TailOf(t: seq<byte>, rest: seq<byte>)
    requires t != [] && rest == t[1..] && Values(t) != []
    ensures Tail(t) == Tail(rest) && (Values(rest) == [] ==> Tail(rest) == rest)
  {
  }

  /** The last quantum of a lenient scan. */
  lemma {:induction false} ScanAnyLast(illegalPads: bool, s: Scanned)
    requires PadsInBounds(illegalPads, s) && Values(s.rest) != [] && |s.taken| + |Values(s.rest)| < 4
    ensures EndsAfter(illegalPads, s.taken + Values(s.rest), Tail(s.rest), Scan(Any, illegalPads, s))
    decreases |s.rest|
  {
    var a := NextAction(Any, illegalPads, s);
    var n := Apply(s, a);
    TablesAgree(0, s.rest[0]);
    TailStep(s, a);
    if Values(n.rest) == [] {
      ScanAnyTail(illegalPads, n);
      assert n.taken + Values(n.rest) == n.taken;
    } else {
      ScanAnyLast(illegalPads, n);
    }
  }

  lemma {:induction false} ScanAnyKeepsTail(illegalPads: bool, s: Scanned)
    requires |s.taken| <= 4 && |s.taken| + |Values(s.rest)| >= 4
    ensures Tail(Scan(Any, illegalPads, s).rest) == Tail(s.rest)
    decreases |s.rest|
  {
    var a := NextAction(Any, illegalPads, s);
    if |s.taken| == 4 {
    } else {
      TailStep(s, a);
      ScanAnyKeepsTail(illegalPads, Apply(s, a));
    }
  }

  lemma {:induction false} LenientFull(illegalPads: bool, t: seq<byte>)
    requires |Values(t)| >= 4
    ensures var q := NextQuantum(Any, illegalPads, t);
            q.sextets == Values(t)[..4] && Values(q.rest) == Values(t)[4..] && Tail(q.rest) == Tail(t)
  {
    var n := ScanAny(illegalPads, Begin(t));
    ScanAnyKeepsTail(illegalPads, Begin(t));
  }

  /** The quantum of fewer than four letters, with `t` after the last of them. */
  function LenientQuantum(illegalPads: bool, vs: seq<Sextet>, t: seq<byte>): Quantum
    requires |vs| < 4
  {
    var pads := CountedPads(illegalPads, |vs|, 0, t);
    if |vs| + pads == 4 then Quantum(vs, true, []) else Quantum(vs, false, if pads > 0 then FromFirstPad(t) else [])
  }

  lemma {:induction false} LenientShort(illegalPads: bool, t: seq<byte>)
    requires |Values(t)| < 4
    ensures NextQuantum(Any, illegalPads, t) == LenientQuantum(illegalPads, Values(t), Tail(t))
  {
    var b := Begin(t);
    assert b.taken + Values(t) == Values(t);
    if Values(t) == [] {
      ScanAnyTail(illegalPads, b);
    } else {
      ScanAnyLast(illegalPads, b);
    }
  }

  lemma {:induction false} LenientReferenceFull(f: Flags, vs: seq<Sextet>, t: seq<byte>)
    requires |vs| >= 4
    ensures var d, e := LenientReference(f, vs, t), LenientReference(f, vs[4..], t);
            d == Decoded(Bytes(vs[..4]) + e.bytes, e.ok, e.rest)
  {
    assert |vs| % 4 == |vs[4..]| % 4;
  }

  lemma {:induction false} LenientReferenceShort(f: Flags, vs: seq<Sextet>, t: seq<byte>)
    requires |vs| < 4 && !(vs == [] && t == [])
    ensures var q := LenientQuantum(f.pad.Disallowed?, vs, t);
            LenientReference(f, vs, t) == Decoded(Bytes(vs), ShortOk(f, q), q.rest)
  {
  }

  /** Lenient parsing under every pad and termination flag: the bytes are those of the letters, wherever
      other characters stand between them, and success depends only on the letters and on what follows
      the last of them. */
  lemma {:induction false} LenientDecodes(f: Flags, t: seq<byte>)
    requires f.parse.Any?
    ensures Decode(f, t) == LenientReference(f, Values(t), Tail(t))
    decreases |t|
  {
    var q := NextQuantum(Any, f.pad.Disallowed?, t);
    if |Values(t)| >= 4 {
      LenientFull(f.pad.Disallowed?, t);
      DecodeFull(f, t, q);
      LenientDecodes(f, q.rest);
      LenientReferenceFull(f, Values(t), Tail(t));
    } else if t != [] {
      LenientShort(f.pad.Disallowed?, t);
      DecodeShort(f, t, q);
      NothingAtAll(t);
      LenientReferenceShort(f, Values(t), Tail(t));
    }
  }

  lemma {:induction false} NothingAtAll(t: seq<byte>)
    requires t != []
    ensures !(Values(t) == [] && Tail(t) == [])
  {
  }

  /** In particular the output depends only on the letters, and so does success when neither padding
      nor the end of the buffer is asked for. */
  lemma {:induction false} LenientIgnoresNoise(f: Flags, t: seq<byte>)
    requires f.parse.Any?
    ensures Decode(f, t).bytes == Ungroup(Values(t))
    ensures !f.pad.Required? ==> (Decode(f, t).ok <==> f.term.Anywhere? || UnusedBits(Leftover(Values(t))) == 0)
  {
    LenientDecodes(f, t);
  }

  /** Any text with the letters of an encoding decodes to the encoded bytes. */
  lemma {:induction false} NoiseInEncoding(f: Flags, data: seq<byte>, t: seq<byte>)
    requires f.parse.Any? && Values(t) == Values(Encode(data))
    ensures Decode(f, t).bytes == data
    ensures !f.pad.Required? ==> Decode(f, t).ok
  {
    LenientIgnoresNoise(f, t);
    LenientIgnoresNoise(f, Encode(data));
    RoundTrip(f, data);
  }

  // ---------------------------------------------------------------------------------------------
  // Whitespace: what skipping it changes, and what it does not

  predicate IsSpace(c: byte) { Classify(c).Space? }

  function Strip(t: seq<byte>): (u: seq<byte>)
    ensures |u| <= |t|
    ensures t != [] && !IsSpace(t[0]) ==> u != []
    decreases |t|
  {
    if t == [] then [] else (if IsSpace(t[0]) then [] else [t[0]]) + Strip(t[1..])
  }

  function StripScanned(s: Scanned): Scanned { s.(mark := Strip(s.mark), rest := Strip(s.rest)) }

  /** Nothing, or text that does not start with a space. */
  predicate NoLeadingSpace(t: seq<byte>) { t == [] || !IsSpace(t[0]) }

  lemma {:induction false} StripStep(illegalPads: bool, s: Scanned)
    requires s.rest != [] && !IsSpace(s.rest[0])
    ensures var a := NextAction(White, illegalPads, s);
            && NextAction(Strict, illegalPads, StripScanned(s)) == a
            && Apply(StripScanned(s), a) == StripScanned(Apply(s, a))
  {
    var u := Strip(s.rest);
    assert u[0] == s.rest[0] && u[1..] == Strip(s.rest[1..]);
  }

  predicate MarkIsNoSpace(s: Scanned) { s.pads > 0 ==> s.mark != [] && !IsSpace(s.mark[0]) }

  /** A scan that skips spaces follows the strict scan of the text without them. */
  lemma {:induction false} ScanWhite(illegalPads: bool, s: Scanned)
    requires |s.taken| <= 4
    ensures Scan(Strict, illegalPads, StripScanned(s)) == StripScanned(Scan(White, illegalPads, s))
    decreases |s.rest|
  {
    var a := NextAction(White, illegalPads, s);
    if |s.taken| == 4 || s.rest == [] {
    } else {
      if IsSpace(s.rest[0]) {
        ScanWhite(illegalPads, Apply(s, a));
        assert StripScanned(Apply(s, a)) == StripScanned(s);
      } else {
        StripStep(illegalPads, s);
        if !a.Stop? {
          ScanWhite(illegalPads, Apply(s, a));
        }
      }
    }
  }

  lemma {:induction false} WhiteStops(illegalPads: bool, s: Scanned)
    requires |s.taken| <= 4 && MarkIsNoSpace(s)
    ensures var r := Scan(White, illegalPads, s); MarkIsNoSpace(r) && (|r.taken| < 4 ==> NoLeadingSpace(r.rest))
    decreases |s.rest|
  {
    var a := NextAction(White, illegalPads, s);
    if a.Stop? {
    } else {
      WhiteStops(illegalPads, Apply(s, a));
    }
  }

  /** `r` is at the end of the text of `s`, right after a letter if that was the fourth sextet. */
  ghost predicate EndsAt(s: Scanned, r: Scanned) {
    IsEndOf(s.rest, r.rest) && (|s.taken| < 4 && |r.taken| == 4 ==> FollowsLetter(s.rest, r.rest))
  }

  predicate IsEndOf(t: seq<byte>, u: seq<byte>) { |u| <= |t| && u == t[|t| - |u|..] }

  /** The end `u` of `t` comes right after a letter. */
  predicate FollowsLetter(t: seq<byte>, u: seq<byte>) { |u| < |t| && Classify(t[|t| - |u| - 1]).Value? }

  lemma {:induction false} EndOfLonger(t: seq<byte>, u: seq<byte>)
    requires t != []
    ensures IsEndOf(t[1..], u) ==> IsEndOf(t, u)
    ensures FollowsLetter(t[1..], u) ==> FollowsLetter(t, u)
    ensures u == t[1..] && Classify(t[0]).Value? ==> FollowsLetter(t, u)
  {
    var k := |t| - |u|;
    assert k >= 1 ==> t[1..][k - 1..] == t[k..];
    assert k >= 2 ==> t[1..][k - 2] == t[k - 1];
  }

  lemma {:induction false} EndsStep(s: Scanned, n: Scanned, r: Scanned)
    requires s.rest != [] && n.rest == s.rest[1..] && EndsAt(n, r)
    requires |n.taken| < 4 || (r.rest == n.rest && Classify(s.rest[0]).Value?)
    ensures EndsAt(s, r)
  {
    EndOfLonger(s.rest, r.rest);
  }

  lemma {:induction false} ScanEnds(illegalPads: bool, s: Scanned)
    requires |s.taken| <= 4
    ensures EndsAt(s, Scan(White, illegalPads, s))
    decreases |s.rest|
  {
    var a := NextAction(White, illegalPads, s);
    if a.Stop? {
    } else {
      var n := Apply(s, a);
      ScanEnds(illegalPads, n);
      assert |n.taken| == 4 ==> Scan(White, illegalPads, n) == n && Classify(s.rest[0]).Value?;
      EndsStep(s, n, Scan(White, illegalPads, n));
    }
  }

  predicate AllLetters(t: seq<byte>) { forall i :: 0 <= i < |t| ==> Classify(t[i]).Value? }

  /** A text of whole quanta without pads that has a space after them. */
  predicate SpaceAfterWholeQuanta(t: seq<byte>) {
    EndsInSpace(t) && AllLetters(Strip(t)) && |Strip(t)| % 4 == 0
  }

  lemma {:induction false} OnlySpaces(t: seq<byte>)
    requires t != [] && Strip(t) == []
    ensures IsSpace(t[|t| - 1])
    decreases |t|
  {
    if |t| == 1 {
    } else {
      OnlySpaces(t[1..]);
    }
  }

  lemma {:induction false} FourLetters(illegalPads: bool, u: seq<byte>)
    requires AllLetters(u) && |u| >= 4
    ensures |NextQuantum(Strict, illegalPads, u).sextets| == 4
  {
    var vs: seq<Sextet> := [Classify(u[0]).v, Classify(u[1]).v, Classify(u[2]).v, Classify(u[3]).v];
    forall i | 0 <= i < 4 ensures Letter(vs[i]) == u[i] {
      TablesAgree(0, u[i]);
    }
    assert u == Letters(vs) + u[4..];
    FullQuantum(Strict, illegalPads, vs, u[4..]);
  }

  lemma {:induction false} QuantumWhite(illegalPads: bool, t: seq<byte>)
    ensures var q, p := NextQuantum(White, illegalPads, t), NextQuantum(Strict, illegalPads, Strip(t));
            && p.sextets == q.sextets && p.padded == q.padded && p.rest == Strip(q.rest)
            && (|q.sextets| < 4 ==> NoLeadingSpace(q.rest))
  {
    ScanWhite(illegalPads, Begin(t));
    WhiteStops(illegalPads, Begin(t));
    assert StripScanned(Begin(t)) == Begin(Strip(t));
  }

  predicate EndsInSpace(t: seq<byte>) { t != [] && IsSpace(t[|t| - 1]) }

  lemma {:induction false} EndsInSameSpace(t: seq<byte>, k: nat)
    requires 0 < k <= |t| && Classify(t[k - 1]).Value?
    ensures EndsInSpace(t) <==> EndsInSpace(t[k..])
  {
    var r := t[k..];
    assert r != [] ==> r[|r| - 1] == t[|t| - 1];
  }

  lemma {:induction false} LettersAfterQuantum(illegalPads: bool, t: seq<byte>, q: Quantum)
    requires q == NextQuantum(White, illegalPads, t) && |q.sextets| == 4
    ensures |Strip(t)| == 4 + |Strip(q.rest)|
    ensures AllLetters(Strip(t)) <==> AllLetters(Strip(q.rest))
  {
    QuantumWhite(illegalPads, t);
    StrictQuantum(illegalPads, Strip(t));
    TablesAgreeOn(q.sextets);
    LettersSplit(Letters(q.sextets), Strip(q.rest));
  }

  /** A full quantum leaves the question of a trailing space as it was. */
  lemma {:induction false} SpaceAfterQuantum(illegalPads: bool, t: seq<byte>)
    requires |NextQuantum(White, illegalPads, t).sextets| == 4
    ensures SpaceAfterWholeQuanta(t) <==> SpaceAfterWholeQuanta(NextQuantum(White, illegalPads, t).rest)
  {
    var q := NextQuantum(White, illegalPads, t);
    LettersAfterQuantum(illegalPads, t, q);
    WhiteEnds(illegalPads, t, q);
    EndsInSameSpace(t, |t| - |q.rest|);
  }

  lemma {:induction false} WhiteEnds(illegalPads: bool, t: seq<byte>, q: Quantum)
    requires q == NextQuantum(White, illegalPads, t) && |q.sextets| == 4
    ensures var k := |t| - |q.rest|; 0 < k <= |t| && q.rest == t[k..] && Classify(t[k - 1]).Value?
  {
    ScanEnds(illegalPads, Begin(t));
  }

  lemma {:induction false} TablesAgreeOn(vs: seq<Sextet>)
    ensures AllLetters(Letters(vs))
  {
    forall i | 0 <= i < |vs| ensures Classify(Letters(vs)[i]).Value? {
      TablesAgree(vs[i], 0);
    }
  }

  lemma {:induction false} LettersSplit(a: seq<byte>, b: seq<byte>)
    ensures AllLetters(a + b) <==> AllLetters(a) && AllLetters(b)
  {
    if AllLetters(a + b) {
      assert forall i :: 0 <= i < |a| ==> (a + b)[i] == a[i];
      assert forall i :: 0 <= i < |b| ==> (a + b)[|a| + i] == b[i];
    }
  }

  /** What the two parse modes make of a text and of the same text without its spaces. */
  ghost predicate SameButForSpaces(f: Flags, t: seq<byte>, white: Decoded, strict: Decoded) {
    && white.bytes == strict.bytes
    && (white.rest == [] <==> strict.rest == [])
    && (white.ok <==> strict.ok && !(f.pad.Required? && SpaceAfterWholeQuanta(t)))
  }

  lemma {:induction false} WhiteOnlySpaces(w: Flags, t: seq<byte>)
    requires w.parse.White? && t != [] && Strip(t) == []
    ensures Decode(w, t) == Decoded([], !w.pad.Required?, []) && SpaceAfterWholeQuanta(t)
  {
    QuantumWhite(w.pad.Disallowed?, t);
    OnlySpaces(t);
  }

  lemma {:induction false} WhiteFull(w: Flags, s: Flags, t: seq<byte>)
    requires w.parse.White? && s == w.(parse := Strict) && |NextQuantum(White, w.pad.Disallowed?, t).sextets| == 4
    requires var r := NextQuantum(White, w.pad.Disallowed?, t).rest;
             SameButForSpaces(w, r, Decode(w, r), Decode(s, Strip(r)))
    ensures SameButForSpaces(w, t, Decode(w, t), Decode(s, Strip(t)))
  {
    var q := NextQuantum(White, w.pad.Disallowed?, t);
    QuantumWhite(w.pad.Disallowed?, t);
    SpaceAfterQuantum(w.pad.Disallowed?, t);
    DecodeFull(w, t, q);
    DecodeFull(s, Strip(t), NextQuantum(Strict, w.pad.Disallowed?, Strip(t)));
  }

  lemma {:induction false} WhiteLast(w: Flags, s: Flags, t: seq<byte>)
    requires w.parse.White? && s == w.(parse := Strict) && |NextQuantum(White, w.pad.Disallowed?, t).sextets| < 4
    requires t != [] && Strip(t) != []
    ensures SameButForSpaces(w, t, Decode(w, t), Decode(s, Strip(t)))
  {
    var u := Strip(t);
    QuantumWhite(w.pad.Disallowed?, t);
    if AllLetters(u) && |u| >= 4 {
      FourLetters(w.pad.Disallowed?, u);
    }
  }

  lemma {:induction false} DecodeWhite(pad: Pad, term: Term, t: seq<byte>)
    ensures var w, s := Flags(White, pad, term), Flags(Strict, pad, term);
            SameButForSpaces(w, t, Decode(w, t), Decode(s, Strip(t)))
    decreases |t|
  {
    var w, s := Flags(White, pad, term), Flags(Strict, pad, term);
    var q := NextQuantum(White, pad.Disallowed?, t);
    if t == [] {
      assert Strip(t) == [];
    } else if Strip(t) == [] {
      WhiteOnlySpaces(w, t);
    } else if |q.sextets| == 4 {
      DecodeWhite(pad, term, q.rest);
      WhiteFull(w, s, t);
    } else {
      WhiteLast(w, s, t);
    }
  }

  /** Skipping whitespace is decoding the text without it, except that required padding is found
      missing when a space follows whole quanta that need none. */
  lemma {:induction false} WhiteIsStrictWithoutSpaces(pad: Pad, term: Term, t: seq<byte>)
    ensures var w, s := Flags(White, pad, term), Flags(Strict, pad, term);
            && Decode(w, t).bytes == Decode(s, Strip(t)).bytes
            && (Success(w, t) <==> Success(s, Strip(t)) && !(pad.Required? && SpaceAfterWholeQuanta(t)))
  {
    DecodeWhite(pad, term, t);
  }

  /** The exception is real: a newline after any four letters. */
  lemma {:induction false} NewlineAfterFourLetters(vs: seq<Sextet>)
    requires |vs| == 4
    ensures var t := Letters(vs) + [0x0A];
            !Success(Flags(White, Required, AtEnd), t) && Success(STRICT, Strip(t))
  {
    var u, t := Letters(vs), Letters(vs) + [0x0A];
    StripLetters(vs, [0x0A]);
    assert u + Strip([0x0A]) == u;
    TablesAgreeOn(vs);
    FullQuantum(Strict, false, vs, []);
    assert u + [] == u;
    DecodeFull(STRICT, u, Quantum(vs, true, []));
    WhiteIsStrictWithoutSpaces(Required, AtEnd, t);
  }

  lemma {:induction false} StripCons(c: byte, t: seq<byte>)
    requires !IsSpace(c)
    ensures Strip([c] + t) == [c] + Strip(t)
  {
    assert ([c] + t)[1..] == t;
  }

  lemma {:induction false} StripLetters(vs: seq<Sextet>, t: seq<byte>)
    ensures Strip(Letters(vs) + t) == Letters(vs) + Strip(t)
    decreases |vs|
  {
    if vs == [] {
      assert Letters(vs) + t == t;
    } else {
      TablesAgree(vs[0], 0);
      StripLetters(vs[1..], t);
      StripCons(Letter(vs[0]), Letters(vs[1..]) + t);
      LettersCons(vs, t);
      Associate([Letter(vs[0])], Letters(vs[1..]), Strip(t));
    }
  }
}
