/**
 The CRC-32 of gxsetup/partition.c (section 8.1.1.6.2 of ITU-T V.42), which
 protects the GPT header and the entry array.

 The operations on words are wrapped in functions, so that the proofs about
 whole messages work with the few facts about words proved first.
 */
module Crc32 {

  type Byte = bv8
  type Word = bv32

  const ONES: Word := 0xFFFFFFFF
  const RESIDUE: Word := 0x2144DF1C

  function Xor(a: Word, b: Word): Word { a ^ b }
  function Half(a: Word): Word { a >> 1 }
  predicate Odd(a: Word) { a & 1 != 0 }
  function Poly(): Word { 0xEDB88320 }
  function Wide(b: Byte): Word { b as Word }

  /** One turn of the inner loop. */
  function Turn(r: Word): Word {
    if Odd(r) then Xor(Half(r), Poly()) else Half(r)
  }

  /** The inner loop. */
  function Turns(r: Word, n: nat): Word {
    if n == 0 then r else Turn(Turns(r, n - 1))
  }

  function Feed(r: Word, b: Byte): Word {
    Turns(Xor(r, Wide(b)), 8)
  }

  /** The outer loop over a message. */
  function Run(r: Word, m: seq<Byte>): Word {
    if m == [] then r else Feed(Run(r, m[..|m| - 1]), m[|m| - 1])
  }

  function Crc(m: seq<Byte>): Word {
    Xor(Run(ONES, m), ONES)
  }

  method FeedByte(r0: Word, b: Byte) returns (r: Word)
    ensures r == Feed(r0, b)
  {
    r := r0 ^ (b as Word);
    ghost var start := r;
    assert start == Xor(r0, Wide(b));
    hide Wide;
    for j := 0 to 8
      invariant r == Turns(start, j)
    {
      hide Turns;
      ghost var t := r;
      if r & 1 != 0 {
        r := (r >> 1) ^ 0xEDB88320;
      } else {
        r := r >> 1;
      }
      assert r == Turn(t);
      hide Turn;
      TurnsStep(start, j);
    }
  }

  lemma TurnsStep(r: Word, n: nat)
    ensures Turns(r, n + 1) == Turn(Turns(r, n))
  {
  }

  method ComputeCrc32(data: seq<Byte>) returns (crc: Word)
    ensures crc == Crc(data)
  {
    hide Feed, Run, Xor;
    RunEmpty(ONES);
    var r: Word := ONES;
    assert data[..0] == [];
    for i := 0 to |data|
      invariant r == Run(ONES, data[..i])
    {
      RunPrefix(ONES, data, i);
      r := FeedByte(r, data[i]);
    }
    assert data[..|data|] == data;
    crc := Xor(r, ONES);
  }

  lemma RunEmpty(r: Word)
    ensures Run(r, []) == r
  {
  }

  // ----- facts about words

  lemma OddXor(a: Word, b: Word)
    ensures Odd(Xor(a, b)) <==> Odd(a) != Odd(b)
  {
  }

  lemma HalfXor(a: Word, b: Word)
    ensures Half(Xor(a, b)) == Xor(Half(a), Half(b))
  {
  }

  lemma XorAssociates(a: Word, b: Word, c: Word)
    ensures Xor(Xor(a, b), c) == Xor(a, Xor(b, c))
  {
  }

  lemma XorUnits(a: Word, b: Word)
    ensures Xor(a, b) == Xor(b, a)
    ensures Xor(a, a) == 0 && Xor(a, 0) == a && Xor(0, a) == a
  {
  }

  lemma XorLaws(a: Word, b: Word, c: Word)
    ensures Xor(a, b) == Xor(b, a) && Xor(Xor(a, b), c) == Xor(a, Xor(b, c))
    ensures Xor(a, a) == 0 && Xor(a, 0) == a && Xor(0, a) == a
  {
    hide Xor;
    XorAssociates(a, b, c);
    XorUnits(a, b);
  }

  lemma Exchange(a: Word, b: Word, c: Word, d: Word)
    ensures Xor(Xor(a, b), Xor(c, d)) == Xor(Xor(a, c), Xor(b, d))
  {
    hide Xor;
    XorLaws(a, b, Xor(c, d));
    XorLaws(b, c, d);
    XorLaws(c, b, d);
    XorLaws(a, c, Xor(b, d));
  }

  lemma WideXor(a: Byte, b: Byte)
    ensures Wide(a ^ b) == Xor(Wide(a), Wide(b))
  {
  }

  lemma TurnZero(a: Word)
    ensures Turn(a) == 0 <==> a == 0
  {
  }

  // ----- linearity

  lemma TurnLinear(a: Word, b: Word)
    ensures Turn(Xor(a, b)) == Xor(Turn(a), Turn(b))
  {
    hide Xor, Half, Odd, Poly;
    OddXor(a, b);
    HalfXor(a, b);
    Exchange(Half(a), Poly(), Half(b), Poly());
    XorLaws(Poly(), Poly(), 0);
    XorLaws(Xor(Half(a), Half(b)), 0, 0);
    XorLaws(Half(a), Half(b), Poly());
    XorLaws(Half(a), Poly(), Half(b));
    XorLaws(Poly(), Half(b), 0);
  }

  lemma {:induction false} TurnsLinear(a: Word, b: Word, n: nat)
    ensures Turns(Xor(a, b), n) == Xor(Turns(a, n), Turns(b, n))
  {
    hide Xor, Turn;
    if n > 0 {
      TurnsLinear(a, b, n - 1);
      TurnLinear(Turns(a, n - 1), Turns(b, n - 1));
    }
  }

  lemma FeedLinear(r: Word, s: Word, a: Byte, b: Byte)
    ensures Feed(Xor(r, s), a ^ b) == Xor(Feed(r, a), Feed(s, b))
  {
    hide Xor, Wide, Turns;
    WideXor(a, b);
    Exchange(r, Wide(a), s, Wide(b));
    Exchange(r, s, Wide(a), Wide(b));
    TurnsLinear(Xor(r, Wide(a)), Xor(s, Wide(b)), 8);
  }

  function XorAll(a: seq<Byte>, b: seq<Byte>): (c: seq<Byte>)
    requires |a| == |b|
    ensures |c| == |a| && forall i :: 0 <= i < |a| ==> c[i] == a[i] ^ b[i]
  {
    seq(|a|, i requires 0 <= i < |a| => a[i] ^ b[i])
  }

  /** The register is linear over exclusive or, in the start value and the message together. */
  lemma {:induction false} RunLinear(r: Word, s: Word, a: seq<Byte>, b: seq<Byte>)
    requires |a| == |b|
    ensures Run(Xor(r, s), XorAll(a, b)) == Xor(Run(r, a), Run(s, b))
  {
    hide Xor, Feed;
    if a != [] {
      var n := |a| - 1;
      RunLinear(r, s, a[..n], b[..n]);
      assert XorAll(a, b)[..n] == XorAll(a[..n], b[..n]);
      FeedLinear(Run(r, a[..n]), Run(s, b[..n]), a[n], b[n]);
    }
  }

  /** The CRC is affine: of three messages of one length, the CRC of their exclusive or is that of their CRCs. */
  lemma CrcAffine(a: seq<Byte>, b: seq<Byte>, c: seq<Byte>)
    requires |a| == |b| == |c|
    ensures Crc(XorAll(XorAll(a, b), c)) == Xor(Xor(Crc(a), Crc(b)), Crc(c))
  {
    hide Xor, Run;
    RunLinear(ONES, ONES, a, b);
    XorLaws(ONES, ONES, ONES);
    RunLinear(0, ONES, XorAll(a, b), c);
    Complements(Run(ONES, a), Run(ONES, b), Run(ONES, c), ONES);
  }

  lemma Complements(a: Word, b: Word, c: Word, o: Word)
    ensures Xor(Xor(Xor(a, b), c), o) == Xor(Xor(Xor(a, o), Xor(b, o)), Xor(c, o))
  {
    hide Xor;
    Exchange(a, o, b, o);
    XorLaws(o, o, 0);
    XorLaws(Xor(a, b), 0, 0);
    XorLaws(Xor(a, b), c, o);
  }

  // ----- several bytes at once

  lemma {:induction false} TurnsAdd(a: Word, m: nat, n: nat)
    ensures Turns(a, m + n) == Turns(Turns(a, m), n)
  {
    hide Turn;
    if n > 0 { TurnsAdd(a, m, n - 1); }
  }

  lemma RunSnoc(r: Word, m: seq<Byte>, b: Byte)
    ensures Run(r, m + [b]) == Feed(Run(r, m), b)
  {
    assert (m + [b])[..|m|] == m;
  }

  lemma {:induction false} RunConcat(r: Word, a: seq<Byte>, b: seq<Byte>)
    ensures Run(r, a + b) == Run(Run(r, a), b)
  {
    hide Feed;
    if b == [] {
      assert a + b == a;
    } else {
      var n := |b| - 1;
      RunConcat(r, a, b[..n]);
      RunSnoc(r, a + b[..n], b[n]);
      assert a + b == a + b[..n] + [b[n]];
    }
  }

  function LowByte(w: Word): Byte { (w & 0xFF) as Byte }
  function HighPart(w: Word): Word { w & 0xFFFFFF00 }
  function Down8(w: Word): Word { w >> 8 }

  /** A word as the little-endian bytes in which a header field holds it. */
  function Bytes(w: Word): seq<Byte> {
    [LowByte(w), LowByte(Down8(w)), LowByte(Down8(Down8(w))), LowByte(Down8(Down8(Down8(w))))]
  }

  lemma SplitWord(w: Word)
    ensures w == Xor(Wide(LowByte(w)), HighPart(w)) && HighPart(w) & 0xFF == 0 && Down8(HighPart(w)) == Down8(w)
  {
  }

  lemma FourDowns(w: Word)
    ensures Down8(Down8(Down8(Down8(w)))) == 0
  {
  }

  /** Eight turns move a word with an empty low byte down by one byte. */
  lemma EightTurnsShift(w: Word)
    requires w & 0xFF == 0
    ensures Turns(w, 8) == Down8(w)
  {
    assert Turns(w, 1) == w >> 1;
    assert Turns(w, 2) == w >> 2;
    assert Turns(w, 3) == w >> 3;
    assert Turns(w, 4) == w >> 4;
    assert Turns(w, 5) == w >> 5;
    assert Turns(w, 6) == w >> 6;
    assert Turns(w, 7) == w >> 7;
  }

  /** Feeding the low byte of w leaves the rest of w still to feed. */
  lemma FeedLow(r: Word, w: Word)
    ensures Turns(Xor(r, w), 8) == Xor(Feed(r, LowByte(w)), Down8(w))
  {
    hide Xor, Wide, Turns, LowByte, HighPart, Down8;
    SplitWord(w);
    XorLaws(r, Wide(LowByte(w)), HighPart(w));
    TurnsLinear(Xor(r, Wide(LowByte(w))), HighPart(w), 8);
    EightTurnsShift(HighPart(w));
  }

  /** Four bytes at once: the register after them is 32 turns of the exclusive or. */
  lemma FeedWord(r: Word, w: Word)
    ensures Run(r, Bytes(w)) == Turns(Xor(r, w), 32)
  {
    hide Xor, Feed, Turns, LowByte, Down8, Run;
    var w1 := Down8(w);
    var w2 := Down8(w1);
    var w3 := Down8(w2);
    var r1 := Feed(r, LowByte(w));
    var r2 := Feed(r1, LowByte(w1));
    var r3 := Feed(r2, LowByte(w2));
    var r4 := Feed(r3, LowByte(w3));
    FeedLow(r, w);
    FeedLow(r1, w1);
    FeedLow(r2, w2);
    FeedLow(r3, w3);
    FourDowns(w);
    XorLaws(r4, 0, 0);
    TurnsAdd(Xor(r, w), 8, 24);
    TurnsAdd(Xor(r1, w1), 8, 16);
    TurnsAdd(Xor(r2, w2), 8, 8);
    RunFour(r, LowByte(w), LowByte(w1), LowByte(w2), LowByte(w3));
  }

  lemma RunFour(r: Word, a: Byte, b: Byte, c: Byte, d: Byte)
    ensures Run(r, [a, b, c, d]) == Feed(Feed(Feed(Feed(r, a), b), c), d)
  {
    hide Feed, Run;
    RunEmpty(r);
    RunSnoc(r, [], a);
    RunSnoc(r, [a], b);
    RunSnoc(r, [a, b], c);
    RunSnoc(r, [a, b, c], d);
    assert [] + [a] == [a] && [a] + [b] == [a, b] && [a, b] + [c] == [a, b, c] && [a, b, c] + [d] == [a, b, c, d];
  }

  lemma RunPrefix(r: Word, m: seq<Byte>, i: nat)
    requires i < |m|
    ensures Run(r, m[..i + 1]) == Feed(Run(r, m[..i]), m[i])
  {
    assert m[..i + 1][..i] == m[..i];
  }

  // ----- the residue

  function Turn8(r: Word): Word {
    Turn(Turn(Turn(Turn(Turn(Turn(Turn(Turn(r))))))))
  }

  lemma Turned8(r: Word)
    ensures Turns(r, 8) == Turn8(r)
  {
    hide Turn;
    TurnsAdd(r, 4, 4);
    Turned4(r);
    Turned4(Turns(r, 4));
  }

  lemma Turned4(r: Word)
    ensures Turns(r, 4) == Turn(Turn(Turn(Turn(r))))
  {
    hide Turn;
    assert Turns(r, 0) == r;
    assert Turns(r, 1) == Turn(Turns(r, 0));
    assert Turns(r, 2) == Turn(Turns(r, 1));
    assert Turns(r, 3) == Turn(Turns(r, 2));
  }

  lemma OnesTurned()
    ensures Xor(Turns(ONES, 32), ONES) == RESIDUE
  {
    hide Turns;
    TurnsAdd(ONES, 8, 24);
    TurnsAdd(0x2DFD1072, 8, 16);
    TurnsAdd(0xBE26ED00, 8, 8);
    Turned8(ONES);
    Turned8(0x2DFD1072);
    Turned8(0xBE26ED00);
    Turned8(0x00BE26ED);
  }

  /** A message followed by its own CRC has the same CRC whatever the message. */
  lemma ResidueIsConstant(m: seq<Byte>)
    ensures Crc(m + Bytes(Crc(m))) == RESIDUE
  {
    hide Run, Bytes, Turns, Xor;
    var r := Run(ONES, m);
    RunConcat(ONES, m, Bytes(Crc(m)));
    FeedWord(r, Xor(r, ONES));
    XorLaws(r, r, ONES);
    XorLaws(ONES, 0, 0);
    OnesTurned();
  }

  // ----- what a CRC detects

  lemma {:induction false} TurnsZero(a: Word, n: nat)
    ensures Turns(a, n) == 0 <==> a == 0
  {
    hide Turn;
    if n > 0 {
      TurnsZero(a, n - 1);
      TurnZero(Turns(a, n - 1));
    }
  }

  function Zeros(n: nat): (z: seq<Byte>)
    ensures |z| == n && forall i :: 0 <= i < n ==> z[i] == 0
  {
    seq(n, _ => 0)
  }

  lemma FeedZero(r: Word)
    ensures Feed(r, 0) == 0 <==> r == 0
  {
    hide Turns, Xor;
    WideZero();
    XorLaws(r, 0, 0);
    TurnsZero(r, 8);
  }

  lemma WideZero()
    ensures Wide(0) == 0
  {
  }

  lemma {:induction false} RunZeros(r: Word, n: nat)
    ensures Run(r, Zeros(n)) == 0 <==> r == 0
  {
    hide Feed;
    if n > 0 {
      assert Zeros(n)[..n - 1] == Zeros(n - 1);
      RunZeros(r, n - 1);
      FeedZero(Run(r, Zeros(n - 1)));
    }
  }

  /**
   Every change confined to four bytes in a row is detected: messages of one
   length that differ in such a burst have different CRCs.
   */
  lemma BurstDetected(a: seq<Byte>, before: nat, w: Word, after: nat)
    requires w != 0 && |a| == before + 4 + after
    ensures |Bytes(w)| == 4
    ensures Crc(XorAll(a, Zeros(before) + Bytes(w) + Zeros(after))) != Crc(a)
  {
    var e := Zeros(before) + Bytes(w) + Zeros(after);
    assert |Bytes(w)| == 4;
    hide Xor, Run, Turns, Bytes;
    RunLinear(ONES, 0, a, e);
    XorLaws(ONES, 0, 0);
    RunConcat(0, Zeros(before) + Bytes(w), Zeros(after));
    RunConcat(0, Zeros(before), Bytes(w));
    RunZeros(0, before);
    FeedWord(0, w);
    XorLaws(w, 0, 0);
    TurnsZero(w, 32);
    RunZeros(Turns(w, 32), after);
    Differ(Run(ONES, a), Run(0, e), ONES);
  }

  lemma Differ(x: Word, d: Word, o: Word)
    requires d != 0
    ensures Xor(Xor(x, d), o) != Xor(x, o)
  {
  }

  // ----- the division it stands for

  /** A polynomial over the field of two elements, as the set of its powers. */
  type Polynomial = set<nat>

  function Plus(a: Polynomial, b: Polynomial): Polynomial { (a - b) + (b - a) }

  function TimesX(a: Polynomial): Polynomial { set e | e in a :: e + 1 }

  /** The generator of section 8.1.1.6.2. */
  const GENERATOR: Polynomial := {32, 26, 23, 22, 16, 12, 11, 10, 8, 7, 5, 4, 2, 1, 0}

  /** A quotient, highest coefficient first, times the generator. */
  function TimesGenerator(q: seq<bool>): Polynomial {
    if q == [] then {}
    else Plus(TimesX(TimesGenerator(q[..|q| - 1])), if q[|q| - 1] then GENERATOR else {})
  }

  function Shifted(w: Word, n: nat): Word {
    if n == 0 then w else Shifted(Half(w), n - 1)
  }

  /** The coefficient of x^e in a reflected register: bit 31 - e. */
  predicate Coefficient(w: Word, e: nat)
    requires e < 32
  {
    Odd(Shifted(w, 31 - e))
  }

  function Register(w: Word): Polynomial { set e | 0 <= e < 32 && Coefficient(w, e) }

  function TimesXs(a: Polynomial, n: nat): Polynomial {
    if n == 0 then a else TimesX(TimesXs(a, n - 1))
  }

  /** Bit j of a byte, the lowest being bit 0. */
  predicate Bit(b: Byte, j: nat) { Odd(Shifted(Wide(b), j)) }

  /** A message as a polynomial: the first byte has the highest powers, and in a byte the lowest bit. */
  function Message(m: seq<Byte>): Polynomial {
    set e | 0 <= e < 8 * |m| && Bit(m[|m| - 1 - e / 8], 7 - e % 8)
  }

  /** The message times x^32, and the initial ones times x to the message's length. */
  function Dividend(m: seq<Byte>): Polynomial {
    Plus(TimesXs(Message(m), 32), TimesXs(Register(ONES), 8 * |m|))
  }

  /** The same, byte by byte: each enters at the top of the 32 low powers, and everything then moves up by x^8. */
  function Fed(m: seq<Byte>): Polynomial {
    if m == [] then Register(ONES)
    else TimesXs(Plus(Fed(m[..|m| - 1]), Register(Wide(m[|m| - 1]))), 8)
  }

  lemma {:induction false} ShiftedXor(a: Word, b: Word, n: nat)
    ensures Shifted(Xor(a, b), n) == Xor(Shifted(a, n), Shifted(b, n))
    decreases n
  {
    hide Xor, Half;
    if n > 0 {
      HalfXor(a, b);
      ShiftedXor(Half(a), Half(b), n - 1);
    }
  }

  lemma {:induction false} ShiftedStep(w: Word, n: nat)
    ensures Shifted(w, n + 1) == Half(Shifted(w, n))
    decreases n
  {
    hide Half;
    if n > 0 { ShiftedStep(Half(w), n - 1); }
  }

  lemma RegisterXor(a: Word, b: Word)
    ensures Register(Xor(a, b)) == Plus(Register(a), Register(b))
  {
    hide Xor, Odd, Shifted;
    forall e | 0 <= e < 32 ensures Coefficient(Xor(a, b), e) <==> Coefficient(a, e) != Coefficient(b, e) {
      ShiftedXor(a, b, 31 - e);
      OddXor(Shifted(a, 31 - e), Shifted(b, 31 - e));
    }
  }

  /** Four bits of a word at once. */
  lemma Nibble(w: Word, n: nat, x: Word)
    requires Shifted(w, n) == x
    ensures (Odd(Shifted(w, n)) <==> x & 1 != 0) && (Odd(Shifted(w, n + 1)) <==> x & 2 != 0)
    ensures (Odd(Shifted(w, n + 2)) <==> x & 4 != 0) && (Odd(Shifted(w, n + 3)) <==> x & 8 != 0)
    ensures Shifted(w, n + 4) == x >> 4
  {
    hide Shifted;
    ShiftedStep(w, n);
    ShiftedStep(w, n + 1);
    ShiftedStep(w, n + 2);
    ShiftedStep(w, n + 3);
    NibbleBits(x);
  }

  lemma NibbleBits(x: Word)
    ensures (Odd(x) <==> x & 1 != 0) && (Odd(Half(x)) <==> x & 2 != 0)
    ensures (Odd(Half(Half(x))) <==> x & 4 != 0) && (Odd(Half(Half(Half(x)))) <==> x & 8 != 0)
    ensures Half(Half(Half(Half(x)))) == x >> 4
  {
    hide Odd, Half;
    LowBits(x);
    Halves(x);
    BitsAbove(x);
  }

  lemma LowBits(x: Word)
    ensures Odd(x) <==> x & 1 != 0
    ensures Odd(x >> 1) <==> x & 2 != 0
  {
  }

  lemma BitsAbove(x: Word)
    ensures Odd(x >> 2) <==> x & 4 != 0
    ensures Odd(x >> 3) <==> x & 8 != 0
  {
  }

  lemma Halves(x: Word)
    ensures Half(x) == x >> 1 && Half(x >> 1) == x >> 2 && Half(x >> 2) == x >> 3 && Half(x >> 3) == x >> 4
  {
  }

  lemma RegisterPoly()
    ensures Register(Poly()) == GENERATOR - {32}
  {
    hide Odd, Shifted;
    assert Shifted(Poly(), 0) == Poly() by { ShiftedZero(Poly()); }
    Nibble(Poly(), 0, 0xEDB88320);
    Nibble(Poly(), 4, 0x0EDB8832);
    Nibble(Poly(), 8, 0x00EDB883);
    Nibble(Poly(), 12, 0x000EDB88);
    Nibble(Poly(), 16, 0x0000EDB8);
    Nibble(Poly(), 20, 0x00000EDB);
    Nibble(Poly(), 24, 0x000000ED);
    Nibble(Poly(), 28, 0x0000000E);
  }

  lemma ShiftedZero(w: Word)
    ensures Shifted(w, 0) == w
  {
  }

  lemma ShiftedOut(w: Word)
    ensures Shifted(w, 32) == 0
  {
    hide Shifted, Down8;
    ShiftedZero(w);
    ShiftedByte(w, 0);
    ShiftedByte(w, 8);
    ShiftedByte(w, 16);
    ShiftedByte(w, 24);
    FourDowns(w);
  }

  lemma ShiftedByte(w: Word, n: nat)
    ensures Shifted(w, n + 8) == Down8(Shifted(w, n))
  {
    hide Shifted;
    var x := Shifted(w, n);
    Nibble(w, n, x);
    Nibble(w, n + 4, x >> 4);
    TwoNibbles(x);
  }

  lemma TwoNibbles(x: Word)
    ensures (x >> 4) >> 4 == Down8(x)
  {
  }

  /** Halving the register moves every coefficient up, the highest out. */
  lemma RegisterHalf(r: Word)
    ensures Register(Half(r)) == TimesX(Register(r)) - {32}
    ensures 32 in TimesX(Register(r)) <==> Odd(r)
  {
    hide Odd, Half;
    ShiftedOut(r);
    NotOddZero();
    var h, x := Register(Half(r)), TimesX(Register(r));
    forall e: nat ensures e in h <==> e in x && e != 32 {
      if 0 < e < 32 {
        assert Shifted(r, 32 - e) == Shifted(Half(r), 31 - e);
        assert e in h <==> e - 1 in Register(r);
        assert e - 1 in Register(r) ==> e in x;
      } else if e == 0 {
        assert Shifted(r, 32) == Shifted(Half(r), 31);
      }
    }
    ShiftedZero(r);
    assert 31 in Register(r) <==> Odd(r);
    assert 31 in Register(r) ==> 32 in x;
  }

  lemma NotOddZero()
    ensures !Odd(0)
  {
  }

  /** One turn multiplies by x and takes the generator away when x^32 appears. */
  lemma TurnDivides(r: Word)
    ensures Register(Turn(r)) == Plus(TimesX(Register(r)), if Odd(r) then GENERATOR else {})
  {
    hide Xor, Half, Odd, Poly, Register, Shifted, TimesX;
    RegisterPoly();
    RegisterXor(Half(r), Poly());
    RegisterHalf(r);
    var x := TimesX(Register(r));
    assert 32 in GENERATOR;
    if Odd(r) {
      DropCommon(x, GENERATOR, 32);
    } else {
      PlusLaws(x, {}, {});
      assert x - {32} == x;
    }
  }

  lemma DropCommon(x: Polynomial, g: Polynomial, e: nat)
    requires e in x && e in g
    ensures Plus(x - {e}, g - {e}) == Plus(x, g)
  {
  }

  // ----- the register is the remainder

  lemma TimesXPlus(a: Polynomial, b: Polynomial)
    ensures TimesX(Plus(a, b)) == Plus(TimesX(a), TimesX(b))
  {
    var l, r := TimesX(Plus(a, b)), Plus(TimesX(a), TimesX(b));
    forall e ensures e in l <==> e in r {
      if e in l { assert e - 1 in Plus(a, b); }
      if e in TimesX(a) { assert e - 1 in a; }
      if e in TimesX(b) { assert e - 1 in b; }
    }
  }

  lemma PlusLaws(a: Polynomial, b: Polynomial, c: Polynomial)
    ensures Plus(a, b) == Plus(b, a) && Plus(Plus(a, b), c) == Plus(a, Plus(b, c))
    ensures Plus(a, a) == {} && Plus(a, {}) == a
  {
  }

  lemma {:induction false} TimesXsPlus(a: Polynomial, b: Polynomial, n: nat)
    ensures TimesXs(Plus(a, b), n) == Plus(TimesXs(a, n), TimesXs(b, n))
  {
    hide Plus, TimesX;
    if n > 0 {
      TimesXsPlus(a, b, n - 1);
      TimesXPlus(TimesXs(a, n - 1), TimesXs(b, n - 1));
    }
  }

  lemma {:induction false} TimesXsAdd(a: Polynomial, m: nat, n: nat)
    ensures TimesXs(TimesXs(a, m), n) == TimesXs(a, m + n)
  {
    hide TimesX;
    if n > 0 { TimesXsAdd(a, m, n - 1); }
  }

  lemma {:induction false} TimesXsHas(a: Polynomial, n: nat, e: nat)
    ensures e in TimesXs(a, n) <==> e >= n && e - n in a
  {
    if n > 0 {
      if e > 0 { TimesXsHas(a, n - 1, e - 1); }
      var b := TimesXs(a, n - 1);
      assert e in TimesX(b) <==> e > 0 && e - 1 in b by {
        if e > 0 && e - 1 in b { assert (e - 1) + 1 in TimesX(b); }
      }
    }
  }

  lemma {:induction false} ShiftedAdd(w: Word, m: nat, n: nat)
    ensures Shifted(w, m + n) == Shifted(Shifted(w, m), n)
    decreases m
  {
    hide Half;
    if m > 0 { ShiftedAdd(Half(w), m - 1, n); }
  }

  lemma {:induction false} ShiftedNothing(n: nat)
    ensures Shifted(0, n) == 0
  {
    if n > 0 {
      assert Half(0) == 0;
      ShiftedNothing(n - 1);
    }
  }

  lemma WideHasEight(b: Byte)
    ensures Down8(Wide(b)) == 0
  {
  }

  /** A byte has no bits from the eighth on. */
  lemma NoHighBits(b: Byte, j: nat)
    requires j >= 8
    ensures !Bit(b, j)
  {
    hide Shifted, Wide, Down8, Odd;
    ShiftedZero(Wide(b));
    ShiftedByte(Wide(b), 0);
    WideHasEight(b);
    ShiftedAdd(Wide(b), 8, j - 8);
    ShiftedNothing(j - 8);
    NotOddZero();
  }

  /** One byte more: the message moves up by x^8, and the byte takes the eight low powers. */
  lemma MessageSnoc(m: seq<Byte>, b: Byte)
    ensures Message(m + [b]) == Plus(TimesXs(Message(m), 8), Message([b]))
  {
    hide Bit, TimesXs;
    var l, h, o := Message(m + [b]), TimesXs(Message(m), 8), Message([b]);
    forall e: nat ensures e in l <==> e in Plus(h, o) {
      TimesXsHas(Message(m), 8, e);
      if e >= 8 {
        assert |m + [b]| - 1 - e / 8 == |m| - 1 - (e - 8) / 8 && e % 8 == (e - 8) % 8;
      }
    }
  }

  /** A byte in the register stands for its polynomial times x^24. */
  lemma RegisterOfByte(b: Byte)
    ensures Register(Wide(b)) == TimesXs(Message([b]), 24)
  {
    hide TimesXs, Shifted, Odd, Wide;
    forall e: nat ensures e in Register(Wide(b)) <==> e in TimesXs(Message([b]), 24) {
      TimesXsHas(Message([b]), 24, e);
      if e < 24 { NoHighBits(b, 31 - e); }
      if 24 <= e < 32 { assert 7 - (e - 24) % 8 == 31 - e; }
    }
  }

  /** Fed byte by byte the message comes to the dividend. */
  lemma {:induction false} FedIsDividend(m: seq<Byte>)
    ensures Fed(m) == Dividend(m)
  {
    hide Register, Wide, Message, Plus, TimesXs;
    if m == [] {
      NoMessage();
    } else {
      var n := |m| - 1;
      var a, b := m[..n], m[n];
      assert m == a + [b];
      FedIsDividend(a);
      var x, o, y := Message(a), TimesXs(Register(ONES), 8 * n), Message([b]);
      MessageSnoc(a, b);
      RegisterOfByte(b);
      assert Fed(m) == TimesXs(Plus(Plus(TimesXs(x, 32), o), TimesXs(y, 24)), 8);
      MovedUp(x, Register(ONES), y, 8 * n);
    }
  }

  lemma NoMessage()
    ensures Message([]) == {} && TimesXs({}, 32) == {} && TimesXs(Register(ONES), 0) == Register(ONES)
    ensures Dividend([]) == Register(ONES)
  {
    hide Register, Plus;
    forall e: nat ensures e !in TimesXs({}, 32) {
      TimesXsHas({}, 32, e);
    }
    PlusLaws(Register(ONES), {}, {});
    var none: seq<Byte> := [];
    assert Message(none) == {} && 8 * |none| == 0;
  }

  lemma MovedUp(x: Polynomial, o: Polynomial, y: Polynomial, n: nat)
    ensures TimesXs(Plus(Plus(TimesXs(x, 32), TimesXs(o, n)), TimesXs(y, 24)), 8) ==
      Plus(TimesXs(Plus(TimesXs(x, 8), y), 32), TimesXs(o, n + 8))
  {
    hide TimesXs, Plus;
    var p, q, r := TimesXs(x, 32), TimesXs(o, n), TimesXs(y, 24);
    TimesXsPlus(Plus(p, q), r, 8);
    TimesXsPlus(p, q, 8);
    TimesXsAdd(x, 32, 8);
    TimesXsAdd(o, n, 8);
    TimesXsAdd(y, 24, 8);
    TimesXsPlus(TimesXs(x, 8), y, 32);
    TimesXsAdd(x, 8, 32);
    var u, v, w := TimesXs(x, 40), TimesXs(o, n + 8), TimesXs(y, 32);
    PlusLaws(u, v, w);
    PlusLaws(u, w, v);
    PlusLaws(v, w, {});
  }

  /** n turns from r: x^n times what r stands for is a multiple of the generator plus the new register. */
  lemma {:induction false} TurnsDivide(p: Polynomial, q: seq<bool>, r: Word, n: nat) returns (q': seq<bool>)
    requires p == Plus(TimesGenerator(q), Register(r))
    ensures TimesXs(p, n) == Plus(TimesGenerator(q'), Register(Turns(r, n)))
    decreases n
  {
    hide Turn, Register, Odd, Plus, TimesX;
    if n == 0 {
      q' := q;
    } else {
      var k := TurnsDivide(p, q, r, n - 1);
      var s := Turns(r, n - 1);
      q' := k + [Odd(s)];
      assert q'[..|q'| - 1] == k;
      var g: Polynomial := if Odd(s) then GENERATOR else {};
      var m, x := TimesX(TimesGenerator(k)), TimesX(Register(s));
      TurnDivides(s);
      TimesXPlus(TimesGenerator(k), Register(s));
      GeneratorCancels(m, x, g);
    }
  }

  lemma GeneratorCancels(m: Polynomial, x: Polynomial, g: Polynomial)
    ensures Plus(m, x) == Plus(Plus(m, g), Plus(x, g))
  {
  }

  /**
   The loop is a division: for every message the dividend is a multiple of the
   generator plus what the register holds, whose powers are below that of the
   generator.  So the register is the remainder.
   */
  lemma {:induction false} RunIsRemainder(m: seq<Byte>) returns (q: seq<bool>)
    ensures Dividend(m) == Plus(TimesGenerator(q), Register(Run(ONES, m)))
    ensures forall e :: e in Register(Run(ONES, m)) ==> e < 32
  {
    hide Dividend, Fed, Register, Run;
    RegisterBelow32(Run(ONES, m));
    FedIsDividend(m);
    q := RunDivides(m);
  }

  lemma {:induction false} RunDivides(m: seq<Byte>) returns (q: seq<bool>)
    ensures Fed(m) == Plus(TimesGenerator(q), Register(Run(ONES, m)))
  {
    hide Turns, Register, Xor, Wide, Plus, TimesXs;
    if m == [] {
      q := [];
      PlusLaws(Register(ONES), {}, {});
    } else {
      var n := |m| - 1;
      var k := RunDivides(m[..n]);
      var r, b := Run(ONES, m[..n]), Wide(m[n]);
      RegisterXor(r, b);
      PlusLaws(TimesGenerator(k), Register(r), Register(b));
      q := TurnsDivide(Plus(Fed(m[..n]), Register(b)), k, Xor(r, b), 8);
    }
  }

  lemma RegisterBelow32(r: Word)
    ensures forall e :: e in Register(r) ==> e < 32
  {
    hide Coefficient;
  }
}
