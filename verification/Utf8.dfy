/**
 The UTF-8 reader and writer of libddi (libddi/libddi.c:731-828). Pointers into
 a string are indices into `mem`; shifts and masks are written as the division
 and remainder they perform on values that are never negative.
 */
module Utf8 {
  type Byte = b: int | 0 <= b < 256

  // ---- The reference: section 3 of RFC 3629, section 2 of RFC 2279 ----

  /** Code points from the (n-1)-th bound up to the n-th take n octets. */
  function Bound(n: nat): nat {
    match n
    case 0 => 0
    case 1 => 0x80
    case 2 => 0x800
    case 3 => 0x1_0000
    case 4 => 0x20_0000
    case 5 => 0x400_0000
    case 6 => 0x8000_0000
    case 7 => 0x10_0000_0000
    case _ => 0x200_0000_0000
  }

  /** What the scheme has a form for, in at most eight octets. */
  type CodePoint = cp: int | 1 <= cp < 0x200_0000_0000 witness 1

  function FormLen(cp: nat): (n: nat)
    requires cp < Bound(8)
    ensures 1 <= n <= 8 && Bound(n - 1) <= cp < Bound(n)
  {
    if cp < Bound(1) then 1 else if cp < Bound(2) then 2 else if cp < Bound(3) then 3
    else if cp < Bound(4) then 4 else if cp < Bound(5) then 5 else if cp < Bound(6) then 6
    else if cp < Bound(7) then 7 else 8
  }

  function Power2(n: nat): (p: nat)
    requires n <= 8
    ensures 1 <= p <= 256
  {
    match n
    case 0 => 1
    case 1 => 2
    case 2 => 4
    case 3 => 8
    case 4 => 16
    case 5 => 32
    case 6 => 64
    case 7 => 128
    case _ => 256
  }

  /** A first octet that announces n octets starts with n one bits. */
  function LeadMark(n: nat): (m: nat)
    requires n <= 8
    ensures m < 256
  {
    256 - Power2(8 - n)
  }

  /** x without its last m groups of six bits. */
  function Shift(x: nat, m: nat): nat {
    if m == 0 then x else Shift(x / 64, m - 1)
  }

  function Cont(x: nat): Byte { 128 + x % 64 }

  /** The last m groups of six bits of x, most significant first, each in its own octet. */
  function Tail(x: nat, m: nat): (s: seq<Byte>)
    ensures |s| == m
  {
    if m == 0 then [] else Tail(x / 64, m - 1) + [Cont(x)]
  }

  lemma {:induction false} LeadFits(cp: nat, n: nat)
    requires 1 <= n <= 8 && cp < Bound(n)
    ensures n == 1 ==> cp < 128
    ensures n > 1 ==> LeadMark(n) + Shift(cp, n - 1) < 256
    ensures 1 < n <= 7 ==> LeadMark(n) + Shift(cp, n - 1) < LeadMark(n + 1)
    ensures n == 8 ==> Shift(cp, 7) == 0
  {
    ShiftIs(cp, n - 1);
  }

  lemma ShiftIs(x: nat, m: nat)
    requires m <= 7
    ensures Shift(x, m) == x / Power64(m)
  {
    if m > 0 {
      ShiftIs(x / 64, m - 1);
      DivDiv(x, m);
    }
  }

  function Power64(m: nat): (p: nat)
    ensures p >= 1
  {
    match m
    case 0 => 1
    case 1 => 0x40
    case 2 => 0x1000
    case 3 => 0x4_0000
    case 4 => 0x100_0000
    case 5 => 0x4000_0000
    case 6 => 0x10_0000_0000
    case _ => 0x400_0000_0000
  }

  lemma DivDiv(x: nat, m: nat)
    requires 1 <= m <= 7
    ensures (x / 64) / Power64(m - 1) == x / Power64(m)
  {
  }

  /** The octets of a code point: as many as its range asks for. */
  function Form(cp: nat): (s: seq<Byte>)
    requires cp < Bound(8)
    ensures |s| == FormLen(cp)
  {
    var n := FormLen(cp);
    LeadFits(cp, n);
    if n == 1 then [cp] else [LeadMark(n) + Shift(cp, n - 1)] + Tail(cp, n - 1)
  }

  /** The k-th octet behind the first carries the six bits that the k - 1 before it have left. */
  lemma {:induction false} TailAt(x: nat, m: nat, k: nat)
    requires k < m <= 7
    ensures Tail(x, m)[k] == 128 + x / Power64(m - 1 - k) % 64
    decreases m
  {
    if k < m - 1 {
      TailAt(x / 64, m - 1, k);
      DivDiv(x, m - 1 - k);
    }
  }

  /**
   The table of section 3 of RFC 3629 for forms of up to four octets, and the further rows
   that section 2 of RFC 2279 has for five and six.
   */
  lemma {:induction false} FormIsTable(cp: nat)
    requires cp < 0x8000_0000
    ensures
      var f := Form(cp);
      if cp <= 0x7F then f == [cp]
      else if cp <= 0x7FF then f == [0xC0 + cp / 0x40, 0x80 + cp % 0x40]
      else if cp <= 0xFFFF then f == [0xE0 + cp / 0x1000, 0x80 + cp / 0x40 % 0x40, 0x80 + cp % 0x40]
      else if cp <= 0x1F_FFFF then
        f == [0xF0 + cp / 0x4_0000, 0x80 + cp / 0x1000 % 0x40, 0x80 + cp / 0x40 % 0x40, 0x80 + cp % 0x40]
      else if cp <= 0x3FF_FFFF then |f| == 5 && f[0] == 0xF8 + cp / 0x100_0000
      else |f| == 6 && f[0] == 0xFC + cp / 0x4000_0000
  {
    hide Form, FormLen, LeadMark, Power64;
    FormLens(cp);
    MarksAre();
    var n := FormLen(cp);
    if n == 1 {
      FormOfAscii(cp);
    } else {
      FirstOctet(cp);
      if n <= 4 { NextOctet(cp, 1); }
      if 2 < n <= 4 { NextOctet(cp, 2); }
      if n == 4 { NextOctet(cp, 3); }
    }
  }

  lemma FormLens(cp: nat)
    requires cp < 0x8000_0000
    ensures FormLen(cp) ==
      if cp <= 0x7F then 1 else if cp <= 0x7FF then 2 else if cp <= 0xFFFF then 3
      else if cp <= 0x1F_FFFF then 4 else if cp <= 0x3FF_FFFF then 5 else 6
  {
  }

  lemma MarksAre()
    ensures LeadMark(2) == 0xC0 && LeadMark(3) == 0xE0 && LeadMark(4) == 0xF0
    ensures LeadMark(5) == 0xF8 && LeadMark(6) == 0xFC
    ensures Power64(0) == 1 && Power64(1) == 0x40 && Power64(2) == 0x1000 && Power64(3) == 0x4_0000
    ensures Power64(4) == 0x100_0000 && Power64(5) == 0x4000_0000
  {
  }

  lemma FormOfAscii(cp: nat)
    requires cp < Bound(8) && FormLen(cp) == 1
    ensures Form(cp) == [cp]
  {
  }

  lemma FirstOctet(cp: nat)
    requires cp < Bound(8) && FormLen(cp) >= 2
    ensures Form(cp)[0] == LeadMark(FormLen(cp)) + cp / Power64(FormLen(cp) - 1)
  {
    hide Shift, Tail, LeadMark, Power64, FormLen;
    ShiftIs(cp, FormLen(cp) - 1);
  }

  lemma NextOctet(cp: nat, k: nat)
    requires cp < Bound(8) && 1 <= k < FormLen(cp)
    ensures Form(cp)[k] == 128 + cp / Power64(FormLen(cp) - 1 - k) % 64
  {
    hide Shift, Tail, LeadMark, Power64, FormLen;
    TailAt(cp, FormLen(cp) - 1, k - 1);
  }

  // ---- The writer ----

  /** What still fits beside `len` octets already written: 1 << (6 + (6 - (len + 1))), and nothing when that wraps. */
  function Room(len: nat): (r: nat)
    ensures len <= 7 ==> r > 0
  {
    match len
    case 0 => 0x800
    case 1 => 0x400
    case 2 => 0x200
    case 3 => 0x100
    case 4 => 0x80
    case 5 => 0x40
    case 6 => 0x20
    case 7 => 0x10
    case 8 => 8
    case 9 => 4
    case 10 => 2
    case 11 => 1
    case _ => 0
  }

  /** How many octets the loop puts in front of the terminator, when `len` are there. */
  function OctetsPut(cp: nat, len: nat): nat
    decreases cp
  {
    if cp == 0 then 0 else if cp < Room(len) then 2 else 1 + OctetsPut(cp / 64, len + 1)
  }

  const OUT := 0x400_0000_0000          // 2^42
  const IN_AGAIN := 0x4000_0000_0000    // 2^46
  const OUT_AGAIN := 0x1_0000_0000_0000 // 2^48

  predicate InBuffer(cp: int) { cp < OUT || IN_AGAIN <= cp < OUT_AGAIN }

  /** How many octets are written for a code point without a form: all of them continuation octets. */
  function Leadless(cp: nat): nat { if cp < OUT then 7 else 8 }

  /** What the writer writes for a code point, if that stays in its buffer. */
  function Written(cp: nat): seq<Byte> {
    if cp < Bound(8) then Form(cp) else Tail(cp, Leadless(cp))
  }

  lemma {:induction false} OctetsAfter(cp: nat, len: nat)
    requires forall i :: 0 <= i < len ==> Shift(cp, i) > 0 && Shift(cp, i) >= Room(i)
    ensures OctetsPut(cp, 0) == len + OctetsPut(Shift(cp, len), len)
  {
    if len > 0 {
      OctetsAfter(cp, len - 1);
      NextGroup(cp, len - 1);
    }
  }

  /** A code point without a form fits beside no octets; it runs out of bits, or the buffer of bytes. */
  lemma NeverFits(cp: nat, len: nat)
    requires cp >= Bound(8) && len <= 6
    ensures Shift(cp, len) >= Room(len)
  {
    hide Shift;
    ShiftIs(cp, len);
  }

  /** The writer stays in its nine bytes, one of them for the terminator, exactly for these code points. */
  lemma {:induction false} BufferIsExact(cp: nat)
    requires cp >= 128
    ensures OctetsPut(cp, 0) <= 8 <==> InBuffer(cp)
  {
    hide Shift, FormLen;
    if cp < Bound(8) {
      ZeroGroups(cp);
      var n := FormLen(cp) - 2;
      forall i | 0 <= i < n ensures Shift(cp, i) > 0 && Shift(cp, i) >= Room(i) {
        FitsIsLen(cp, i);
        NeverRunsOut(cp, i);
      }
      OctetsAfter(cp, n);
      FitsIsLen(cp, n);
    } else {
      forall i | 0 <= i < 7 ensures Shift(cp, i) > 0 && Shift(cp, i) >= Room(i) {
        NeverFits(cp, i);
      }
      OctetsAfter(cp, 7);
      ShiftIs(cp, 7);
      LastOctets(Shift(cp, 7));
    }
  }

  lemma LastOctets(x: nat)
    ensures OctetsPut(x, 7) <= 1 <==> x == 0 || 16 <= x < 64
  {
    if x > 0 && x >= 16 {
      assert OctetsPut(x, 7) == 1 + OctetsPut(x / 64, 8);
      if x < 64 {
        assert OctetsPut(0, 8) == 0;
      } else {
        assert x / 64 > 0;
      }
    }
  }

  /** The turns of the loop for such a code point. */
  lemma LeadlessTurns(cp: nat, len: nat)
    requires cp >= Bound(8) && InBuffer(cp) && len <= Leadless(cp)
    ensures len < Leadless(cp) ==> Shift(cp, len) >= Room(len) && Shift(cp, len) > 0
    ensures len == Leadless(cp) ==> Shift(cp, len) == 0
  {
    hide Shift;
    if len <= 6 {
      NeverFits(cp, len);
    } else {
      ShiftIs(cp, 7);
      NextGroup(cp, 7);
    }
  }

  /** The complement of (1 << (8 - (len + 2))) - 1 in eight bits. */
  function FinishMark(len: nat): Byte
    requires len <= 6
  {
    255 - (Power2(8 - (len + 2)) - 1)
  }

  lemma FitsIsLen(cp: nat, len: nat)
    requires len <= 6
    requires cp < Bound(8) && FormLen(cp) >= len + 2
    ensures Shift(cp, len) < Room(len) <==> FormLen(cp) == len + 2
  {
    ShiftIs(cp, len);
  }

  /** Taking the next six bits off a code point of which m groups are gone. */
  lemma {:induction false} NextGroup(x: nat, m: nat)
    ensures Shift(x, m + 1) == Shift(x, m) / 64
    ensures Tail(x, m + 1) == [Cont(Shift(x, m))] + Tail(x, m)
    decreases m
  {
    if m == 0 {
      assert Tail(x, 1) == Tail(x / 64, 0) + [Cont(x)];
    } else {
      NextGroup(x / 64, m - 1);
      assert Tail(x, m + 1) == Tail(x / 64, m) + [Cont(x)];
      assert Tail(x, m) == Tail(x / 64, m - 1) + [Cont(x)];
    }
  }

  /** An octet in front of those already put. */
  method PutOctet(temp: array<Byte>, put0: nat, octet: Byte) returns (put: nat)
    requires 0 < put0 <= temp.Length
    modifies temp
    ensures put == put0 - 1 && temp[put..] == [octet] + old(temp[put0..])
  {
    put := put0 - 1;
    temp[put] := octet;
    assert temp[put..] == [temp[put]] + temp[put + 1..];
  }

  /**
   ddiWriteUTF8: the octets are put into `temp` from its end backwards and then
   copied, up to the first zero.
   */
  method WriteUtf8(codepoint: int) returns (buffer: seq<Byte>)
    requires InBuffer(codepoint)
    ensures codepoint < 0 ==> buffer == [codepoint % 256, 0]
    ensures codepoint >= 0 ==> buffer == Written(codepoint) + [0]
  {
    hide *;
    if codepoint < 128 {
      FormIsAscii(codepoint);
      return [codepoint % 256, 0];
    }
    var temp := new Byte[9];
    var put := 8;
    temp[put] := 0;
    var cp: nat := codepoint;
    var len := 0;
    ZeroGroups(codepoint);
    WrittenIs(codepoint);
    while cp != 0
      invariant len <= 8 && put == 8 - len && temp.Length == 9
      invariant cp == Shift(codepoint, len)
      invariant if codepoint < Bound(8) then len <= 6 && FormLen(codepoint) >= len + 2 else len <= Leadless(codepoint)
      invariant temp[put..] == Tail(codepoint, len) + [0]
      decreases cp
    {
      Turn(codepoint, len);
      NextGroup(codepoint, len);
      put := PutOctet(temp, put, Cont(cp));
      assert temp[put..] == Tail(codepoint, len + 1) + [0];
      if cp < Room(len) {
        FormIs(codepoint, len);
        cp := cp / 64;
        put := PutOctet(temp, put, FinishMark(len) + cp);
        return temp[put..];
      }
      cp := cp / 64;
      len := len + 1;
    }
    if codepoint < Bound(8) {
      NeverRunsOut(codepoint, len);
      assert false;
    }
    LeadlessTurns(codepoint, len);
    buffer := temp[put..];
  }

  lemma WrittenIs(cp: nat)
    ensures cp < Bound(8) ==> Written(cp) == Form(cp)
    ensures cp >= Bound(8) ==> Written(cp) == Tail(cp, Leadless(cp)) && Leadless(cp) <= 8
    ensures Bound(8) == 0x200_0000_0000
  {
  }

  /** One turn of the loop: it finishes exactly at the length of the form. */
  lemma Turn(cp: nat, len: nat)
    requires InBuffer(cp) && cp >= 128 && Shift(cp, len) != 0
    requires if cp < Bound(8) then len <= 6 && FormLen(cp) >= len + 2 else len <= Leadless(cp)
    ensures Shift(cp, len) < Room(len) <==> cp < Bound(8) && FormLen(cp) == len + 2
    ensures Shift(cp, len) >= Room(len) && cp < Bound(8) ==> len + 1 <= 6 && FormLen(cp) >= len + 3
    ensures cp >= Bound(8) ==> len < Leadless(cp) <= 8
  {
    hide Shift, FormLen;
    if cp < Bound(8) {
      FitsIsLen(cp, len);
    } else {
      LeadlessTurns(cp, len);
    }
  }

  lemma FormIsAscii(cp: int)
    requires cp < 128
    ensures cp >= 0 ==> Form(cp) == [cp] && Written(cp) == [cp]
  {
  }

  lemma FormIs(cp: nat, len: nat)
    requires cp < Bound(8) && len <= 6 && FormLen(cp) == len + 2
    ensures FinishMark(len) + Shift(cp, len + 1) < 256
    ensures Form(cp) == [FinishMark(len) + Shift(cp, len + 1)] + Tail(cp, len + 1)
  {
    LeadFits(cp, len + 2);
  }

  lemma ZeroGroups(x: nat)
    requires 128 <= x
    ensures x < Bound(8) ==> FormLen(x) >= 2
    ensures Shift(x, 0) == x && Tail(x, 0) == []
  {
  }

  lemma NeverRunsOut(cp: nat, len: nat)
    requires cp < Bound(8) && len <= 6 && FormLen(cp) >= len + 2
    ensures Shift(cp, len) != 0
  {
    ShiftIs(cp, len);
  }

  // ---- The reader ----

  /** How many leading one bits a byte has. */
  function Ones(c: Byte): (n: nat)
    decreases c
  {
    if c < 128 then 0 else 1 + Ones(c * 2 % 256)
  }

  /** What is left of a byte once its leading ones have been shifted out. */
  function Rest(c: Byte): Byte
    decreases c
  {
    if c < 128 then c else Rest(c * 2 % 256)
  }

  lemma {:induction false} OnesIs(c: Byte, n: nat)
    requires n <= 7 && LeadMark(n) <= c < LeadMark(n + 1)
    ensures Ones(c) == n && Rest(c) == (c - LeadMark(n)) * Power2(n)
  {
    hide Power2, LeadMark;
    MarkZero();
    if n > 0 {
      var d: Byte := c * 2 % 256;
      MarkStep(n);
      assert d == 2 * c - 256;
      OnesIs(d, n - 1);
      TwiceAs(c - LeadMark(n), Power2(n - 1));
    }
  }

  lemma MarkZero()
    ensures Power2(0) == 1 && LeadMark(0) == 0 && LeadMark(1) == 128
  {
  }

  lemma MarkStep(n: nat)
    requires 1 <= n <= 7
    ensures Power2(n) == 2 * Power2(n - 1)
    ensures LeadMark(n) >= 128
    ensures 2 * LeadMark(n) - 256 == LeadMark(n - 1) && 2 * LeadMark(n + 1) - 256 == LeadMark(n)
  {
  }

  lemma TwiceAs(r: int, p: int)
    ensures (2 * r) * p == r * (2 * p)
  {
  }

  lemma OnesOfFF()
    ensures Ones(0xFF) == 8 && Rest(0xFF) == 0
  {
    assert 0xFF * 2 % 256 == 0xFE;
    OnesIs(0xFE, 7);
  }

  lemma OnesAtMost8(c: Byte)
    ensures Ones(c) <= 8
  {
    var n := 0;
    while n < 8 && c >= LeadMark(n + 1)
      invariant n <= 8 && c >= LeadMark(n)
    {
      n := n + 1;
    }
    if n < 8 { OnesIs(c, n); } else { OnesOfFF(); }
  }

  /** Six more bits for every octet. */
  function Fold(acc: nat, s: seq<Byte>): nat {
    if s == [] then acc else Fold(acc, s[..|s| - 1]) * 64 + s[|s| - 1] % 64
  }

  /** The octets a read at pos touches are inside the memory. */
  predicate Readable(mem: seq<Byte>, pos: nat) {
    pos < |mem| && pos + Ones(mem[pos]) <= |mem|
  }

  function PayloadBits(c: Byte): nat
    requires c >= 128
  {
    OnesAtMost8(c);
    Rest(c) / Power2(Ones(c))
  }

  /** The code point at pos and where the next one is; a terminator is never passed. */
  function Decode(mem: seq<Byte>, pos: nat): (r: (nat, nat))
    requires Readable(mem, pos)
    ensures pos <= r.1 <= |mem|
    ensures mem[pos] != 0 ==> pos < r.1
  {
    var c := mem[pos];
    if c == 0 then (0, pos)
    else if c < 128 then (c, pos + 1)
    else (Fold(PayloadBits(c), mem[pos + 1..pos + Ones(c)]), pos + Ones(c))
  }

  lemma DecodeCases(mem: seq<Byte>, pos: nat)
    requires Readable(mem, pos)
    ensures pos < |mem| && pos + Ones(mem[pos]) <= |mem|
    ensures mem[pos] == 0 ==> Decode(mem, pos) == (0, pos)
    ensures 0 < mem[pos] < 128 ==> Decode(mem, pos) == (mem[pos], pos + 1)
    ensures mem[pos] >= 128 ==>
      && Ones(mem[pos]) <= 8
      && pos + 1 <= pos + Ones(mem[pos])
      && PayloadBits(mem[pos]) == Rest(mem[pos]) / Power2(Ones(mem[pos]))
      && Decode(mem, pos) == (Fold(PayloadBits(mem[pos]), mem[pos + 1..pos + Ones(mem[pos])]), pos + Ones(mem[pos]))
  {
    hide Power2, LeadMark;
    OnesAtMost8(mem[pos]);
  }

  lemma ShiftOut(c: Byte)
    ensures c >= 128 ==> Ones(c) == 1 + Ones(c * 2 % 256) && Rest(c) == Rest(c * 2 % 256) && c * 2 % 256 < c
    ensures c < 128 ==> Ones(c) == 0 && Rest(c) == c
  {
  }

  lemma FoldStart(acc: nat, mem: seq<Byte>, p: nat)
    requires p <= |mem|
    ensures Fold(acc, mem[p..p]) == acc
  {
  }

  lemma FoldMore(acc: nat, mem: seq<Byte>, p: nat, q: nat)
    requires p <= q < |mem|
    ensures Fold(acc, mem[p..q + 1]) == Fold(acc, mem[p..q]) * 64 + mem[q] % 64
  {
    assert mem[p..q + 1][..q - p] == mem[p..q];
  }

  /** ddiReadUTF8: advances the pointer past one code point. */
  method ReadUtf8(mem: seq<Byte>, pos: nat) returns (codepoint: nat, next: nat)
    requires Readable(mem, pos)
    ensures (codepoint, next) == Decode(mem, pos)
  {
    hide *;
    DecodeCases(mem, pos);
    next := pos;
    if mem[next] == 0 { return 0, next; }
    if mem[next] < 128 { return mem[next], next + 1; }
    var c: Byte := mem[next];
    ghost var lead := c;
    next := next + 1;
    var len := 0;
    while c >= 128
      invariant Ones(lead) == len + Ones(c) && Rest(lead) == Rest(c)
      invariant len == 0 ==> c >= 128
      decreases c
    {
      ShiftOut(c);
      c := c * 2 % 256;
      len := len + 1;
    }
    ShiftOut(c);
    OnesAtMost8(lead);
    codepoint := c / Power2(len);
    FoldStart(codepoint, mem, pos + 1);
    len := len - 1;
    while len != 0
      invariant 0 <= len && next + len == pos + Ones(lead) && pos + 1 <= next <= |mem|
      invariant codepoint == Fold(PayloadBits(lead), mem[pos + 1..next])
      decreases len
    {
      FoldMore(PayloadBits(lead), mem, pos + 1, next);
      codepoint := codepoint * 64 + mem[next] % 64;
      next := next + 1;
      len := len - 1;
    }
  }

  // ---- The writer and the reader undo each other ----

  lemma {:induction false} FoldTail(x: nat, m: nat)
    ensures Fold(Shift(x, m), Tail(x, m)) == x
    decreases m
  {
    if m > 0 {
      var t := Tail(x, m);
      assert t[..m - 1] == Tail(x / 64, m - 1);
      FoldTail(x / 64, m - 1);
    }
  }

  /** The first octet of a form tells its length and carries the bits the others do not. */
  lemma LeadIsRead(cp: CodePoint)
    requires cp >= 128
    ensures Form(cp)[0] >= 128
    ensures Ones(Form(cp)[0]) == |Form(cp)| == FormLen(cp)
    ensures PayloadBits(Form(cp)[0]) == Shift(cp, FormLen(cp) - 1)
    ensures Form(cp)[1..] == Tail(cp, FormLen(cp) - 1)
  {
    hide Shift, Power2;
    var n := FormLen(cp);
    LeadFits(cp, n);
    LongerMark(n);
    if n < 8 {
      OnesIs(Form(cp)[0], n);
      TimesOver(Shift(cp, n - 1), Power2(n));
    } else {
      OnesOfFF();
    }
  }

  lemma LongerMark(n: nat)
    requires 2 <= n <= 8
    ensures LeadMark(n) >= 128 && (n == 8 ==> LeadMark(n) == 0xFF)
  {
  }

  lemma TimesOver(r: nat, p: nat)
    requires p > 0
    ensures r * p / p == r
  {
    MultipleIsFar(r - r * p / p, p);
  }

  lemma MultipleIsFar(d: int, p: nat)
    requires p > 0
    ensures d >= 1 ==> d * p >= p
    ensures d <= -1 ==> d * p < 0
  {
  }

  /**
   Round trip: what is written for a code point reads back as that code point,
   and the read ends where the form ends.
   */
  lemma RoundTrip(cp: CodePoint, mem: seq<Byte>, pos: nat)
    requires pos + FormLen(cp) < |mem| && mem[pos..pos + FormLen(cp)] == Form(cp)
    ensures Readable(mem, pos) && Decode(mem, pos) == (cp, pos + FormLen(cp))
  {
    hide Tail, Shift, Fold, Ones, Rest, PayloadBits, FormLen;
    var n := FormLen(cp);
    var f := Form(cp);
    assert mem[pos] == f[0];
    if cp < 128 {
      FormIsAscii(cp);
      AsciiHasNoOnes(cp);
    } else {
      LeadIsRead(cp);
      assert mem[pos + 1..pos + n] == f[1..];
      FoldTail(cp, n - 1);
    }
  }

  /**
   What is written reads back as the code point written exactly below 2^41; the
   octets written beyond it are read as a number below 64.
   */
  lemma {:induction false} RoundTripIsExact(cp: nat, mem: seq<Byte>, pos: nat)
    requires cp >= 1 && InBuffer(cp)
    requires pos + |Written(cp)| < |mem| && mem[pos..pos + |Written(cp)|] == Written(cp)
    ensures Readable(mem, pos)
    ensures Decode(mem, pos).0 == cp <==> cp < Bound(8)
  {
    hide Fold, Ones, Rest, FormLen, Readable, Decode;
    if cp < Bound(8) {
      RoundTrip(cp, mem, pos);
    } else {
      var n := Leadless(cp);
      TailStarts(cp, n);
      assert mem[pos] == Tail(cp, n)[0];
      AloneIsRead(mem, pos);
    }
  }

  lemma {:induction false} TailStarts(x: nat, n: nat)
    requires n >= 1
    ensures 128 <= Tail(x, n)[0] < 192
  {
    NextGroup(x, n - 1);
  }

  lemma AloneIsRead(mem: seq<Byte>, pos: nat)
    requires pos < |mem| && 128 <= mem[pos] < 192
    ensures Readable(mem, pos) && Decode(mem, pos).0 < 64
  {
    var c := mem[pos];
    OnesIs(c, 1);
    assert mem[pos + 1..pos + 1] == [];
  }

  lemma AsciiHasNoOnes(c: Byte)
    requires c < 128
    ensures Ones(c) == 0
  {
  }

  // ---- The form written is the shortest ----

  /** Octets that one read consumes: as many as the first one announces, whatever the others are. */
  predicate IsRead(b: seq<Byte>) {
    && |b| >= 1 && b[0] != 0
    && (b[0] < 128 ==> |b| == 1)
    && (b[0] >= 128 ==> Ones(b[0]) == |b|)
  }

  function Value(b: seq<Byte>): nat
    requires IsRead(b)
  {
    if b[0] < 128 then b[0] else Fold(PayloadBits(b[0]), b[1..])
  }

  lemma {:induction false} UnFold(acc: nat, s: seq<Byte>)
    requires forall i :: 0 <= i < |s| ==> 128 <= s[i] < 192
    ensures Shift(Fold(acc, s), |s|) == acc && Tail(Fold(acc, s), |s|) == s
  {
    if s != [] {
      var front := s[..|s| - 1];
      UnFold(acc, front);
      assert Fold(acc, s) / 64 == Fold(acc, front);
      assert Tail(Fold(acc, s), |s|) == front + [s[|s| - 1]];
    }
  }

  lemma LeadOfMany(c: Byte)
    requires c >= 128 && Ones(c) >= 2
    ensures Ones(c) <= 8 && LeadMark(Ones(c)) <= c
    ensures Ones(c) <= 7 ==> c < LeadMark(Ones(c) + 1)
    ensures PayloadBits(c) == c - LeadMark(Ones(c))
  {
    hide Power2, LeadMark;
    var n := 1;
    TopMark();
    while n < 8 && c >= LeadMark(n + 1)
      invariant 1 <= n <= 8 && c >= LeadMark(n)
    {
      n := n + 1;
    }
    if n < 8 {
      OnesIs(c, n);
      TimesOver(c - LeadMark(n), Power2(n));
    } else {
      OnesOfFF();
    }
  }

  lemma TopMark()
    ensures LeadMark(1) == 128 && LeadMark(8) == 255
  {
  }

  lemma SmallPayload(cp: nat, n: nat)
    requires 2 <= n <= 7 && Shift(cp, n - 1) < LeadMark(n + 1) - LeadMark(n)
    ensures cp < Bound(n)
  {
    ShiftIs(cp, n - 1);
  }

  /** These are the octets that the reader consumes, and what it makes of them. */
  lemma ReadIsValue(mem: seq<Byte>, pos: nat)
    requires Readable(mem, pos) && mem[pos] != 0
    ensures var r := Decode(mem, pos);
      && pos < r.1 <= |mem|
      && IsRead(mem[pos..r.1]) && Value(mem[pos..r.1]) == r.0
  {
    hide Fold, PayloadBits, Ones;
    DecodeCases(mem, pos);
    var b := mem[pos..Decode(mem, pos).1];
    assert b[1..] == mem[pos + 1..Decode(mem, pos).1];
  }

  /** The two top bits of every octet but the first set as they are in a form. */
  function Marked(b: seq<Byte>): (m: seq<Byte>)
    requires b != []
    ensures |m| == |b| && m[0] == b[0]
  {
    seq(|b|, i requires 0 <= i < |b| => if i == 0 then b[0] else Cont(b[i]))
  }

  predicate IsLoneContinuation(b: seq<Byte>) { |b| == 1 && 128 <= b[0] < 192 }

  /**
   No octets that read as a code point are fewer than those written for it. As few
   are a continuation octet alone, and the form itself up to the two top bits of its
   continuation octets, at which the reader does not look; and no others.
   */
  lemma {:induction false} ShortestForm(b: seq<Byte>)
    requires IsRead(b) && Value(b) < Bound(8)
    ensures FormLen(Value(b)) <= |b|
    ensures FormLen(Value(b)) == |b| <==> IsLoneContinuation(b) || Marked(b) == Form(Value(b))
  {
    hide FormLen, Fold, Ones, PayloadBits, Form;
    if b[0] < 128 {
      AsciiIsForm(b[0]);
      assert Marked(b) == b;
    } else if |b| == 1 {
      LoneIsSmall(b[0]);
      assert b[1..] == [];
    } else {
      var m := Marked(b);
      FoldLow(PayloadBits(b[0]), b[1..], m[1..]);
      ShortestMarked(m);
      LongLead(b[0]);
    }
  }

  /** So no read ends sooner than the form of what it has read would. */
  lemma {:induction false} NoReadIsShorter(mem: seq<Byte>, pos: nat)
    requires Readable(mem, pos) && mem[pos] != 0 && Decode(mem, pos).0 < Bound(8)
    ensures pos + FormLen(Decode(mem, pos).0) <= Decode(mem, pos).1
  {
    hide FormLen, Decode, Readable;
    ReadIsValue(mem, pos);
    ShortestForm(mem[pos..Decode(mem, pos).1]);
  }

  /** A continuation octet alone reads as its low bits, and octets that are not marked count as if they were. */
  lemma ReadsWhatIsNoForm()
    ensures Readable([0x81, 0], 0) && Decode([0x81, 0], 0) == (1, 1) && Form(1) == [1]
    ensures Readable([0xC2, 0x41, 0], 0) && Decode([0xC2, 0x41, 0], 0) == (129, 2) && Form(129) == [0xC2, 0x81]
  {
    OnesIs(0x81, 1);
    OnesIs(0xC2, 2);
    var one: seq<Byte> := [0x81, 0];
    var two: seq<Byte> := [0xC2, 0x41, 0];
    FoldStart(1, one, 1);
    FoldStart(2, two, 1);
    FoldMore(2, two, 1, 1);
    assert Tail(129, 1) == Tail(2, 0) + [Cont(129)];
    assert Shift(129, 1) == Shift(2, 0);
  }

  lemma AsciiIsForm(c: Byte)
    requires c < 128
    ensures FormLen(c) == 1 && Form(c) == [c]
  {
  }

  lemma LoneIsSmall(c: Byte)
    requires c >= 128 && Ones(c) == 1
    ensures c < 192 && PayloadBits(c) == c - 128
    ensures Fold(PayloadBits(c), []) == PayloadBits(c) && FormLen(c - 128) == 1
  {
    if c >= 192 {
      LeadOfMore(c);
      assert false;
    }
    OnesIs(c, 1);
  }

  lemma LeadOfMore(c: Byte)
    requires c >= 192
    ensures Ones(c) >= 2
  {
    assert c * 2 % 256 >= 128;
  }

  lemma LongLead(c: Byte)
    requires c >= 128 && Ones(c) >= 2
    ensures c >= 192
  {
    if c < 192 { OnesIs(c, 1); }
  }

  /** Only the low six bits of an octet count. */
  lemma {:induction false} FoldLow(acc: nat, s: seq<Byte>, m: seq<Byte>)
    requires |m| == |s| && forall i :: 0 <= i < |s| ==> m[i] == Cont(s[i])
    ensures Fold(acc, m) == Fold(acc, s)
  {
    if s != [] { FoldLow(acc, s[..|s| - 1], m[..|s| - 1]); }
  }

  /** Octets that announce themselves by their first one and go on with continuation octets. */
  predicate WellFormed(b: seq<Byte>) {
    IsRead(b) && !IsLoneContinuation(b) && forall i :: 1 <= i < |b| ==> 128 <= b[i] < 192
  }

  /** Of these only the form itself is as short. */
  lemma ShortestMarked(b: seq<Byte>)
    requires WellFormed(b) && Value(b) < Bound(8)
    ensures FormLen(Value(b)) <= |b|
    ensures FormLen(Value(b)) == |b| <==> b == Form(Value(b))
  {
    hide Power2, Ones, PayloadBits, Fold, Shift, Tail, LeadMark;
    if b[0] >= 128 && |b| == 1 {
      LoneIsSmall(b[0]);
      assert false;
    }
    if b[0] >= 128 {
      var n, cp := |b|, Value(b);
      LeadOfMany(b[0]);
      UnFold(PayloadBits(b[0]), b[1..]);
      if n < 8 {
        SmallPayload(cp, n);
        assert FormLen(cp) <= n;
      }
      if FormLen(cp) == n {
        assert b == [b[0]] + b[1..];
      }
    }
  }

  // ---- Whole strings ----

  /** The offset of the k-th code point in the text of cps. */
  ghost function Off(cps: seq<CodePoint>, k: nat): nat
    requires k <= |cps|
  {
    if k == 0 then 0 else Off(cps, k - 1) + FormLen(cps[k - 1])
  }

  ghost predicate FormAt(mem: seq<Byte>, at: nat, cp: CodePoint) {
    at + FormLen(cp) < |mem| && mem[at..at + FormLen(cp)] == Form(cp)
  }

  /** The string at pos is the text of cps: their forms one after another, then a zero. */
  ghost predicate Spells(mem: seq<Byte>, pos: nat, cps: seq<CodePoint>) {
    && (forall k :: 0 <= k < |cps| ==> FormAt(mem, pos + Off(cps, k), cps[k]))
    && pos + Off(cps, |cps|) < |mem| && mem[pos + Off(cps, |cps|)] == 0
  }

  lemma NextBoundary(cps: seq<CodePoint>, k: nat)
    requires k < |cps|
    ensures Off(cps, k + 1) == Off(cps, k) + FormLen(cps[k])
  {
  }

  lemma NoOffset(cps: seq<CodePoint>)
    ensures Off(cps, 0) == 0
  {
  }

  lemma SpellsAt(mem: seq<Byte>, str: nat, cps: seq<CodePoint>, k: nat)
    requires Spells(mem, str, cps) && k < |cps|
    ensures FormAt(mem, str + Off(cps, k), cps[k])
  {
  }

  lemma StringEnd(mem: seq<Byte>, str: nat, cps: seq<CodePoint>)
    requires Spells(mem, str, cps)
    ensures str + Off(cps, |cps|) < |mem| && mem[str + Off(cps, |cps|)] == 0
  {
  }

  /** A read at a boundary returns the code point there and moves to the next boundary. */
  lemma ReadsAs(mem: seq<Byte>, pos: nat, cps: seq<CodePoint>, k: nat)
    requires Spells(mem, pos, cps) && k <= |cps|
    ensures Readable(mem, pos + Off(cps, k))
    ensures k < |cps| ==> Decode(mem, pos + Off(cps, k)) == (cps[k], pos + Off(cps, k + 1)) && cps[k] != 0
    ensures k == |cps| ==> Decode(mem, pos + Off(cps, k)) == (0, pos + Off(cps, k))
  {
    hide Decode, Form, FormLen, Readable, Spells, Off;
    if k < |cps| {
      SpellsAt(mem, pos, cps, k);
      NextBoundary(cps, k);
      RoundTrip(cps[k], mem, pos + Off(cps, k));
    } else {
      StringEnd(mem, pos, cps);
      ZeroStops(mem, pos + Off(cps, k));
    }
  }

  lemma ZeroStops(mem: seq<Byte>, at: nat)
    requires at < |mem| && mem[at] == 0
    ensures Readable(mem, at) && Decode(mem, at) == (0, at)
  {
  }

  /** ddiCountUTF8: the number of code points in the string. */
  method CountUtf8(mem: seq<Byte>, str: nat, ghost cps: seq<CodePoint>) returns (out: nat)
    requires Spells(mem, str, cps)
    ensures out == |cps|
  {
    hide Spells, Decode, Readable;
    out := 0;
    ReadsAs(mem, str, cps, 0);
    var point, next := ReadUtf8(mem, str);
    while point != 0
      invariant out <= |cps|
      invariant out < |cps| ==> point != 0 && next == str + Off(cps, out + 1)
      invariant out == |cps| ==> point == 0
      decreases |cps| - out
    {
      out := out + 1;
      ReadsAs(mem, str, cps, out);
      point, next := ReadUtf8(mem, next);
    }
  }

  /** ddiGetOffsetUTF8: the n-th boundary, or the terminator if there are fewer. */
  method GetOffsetUtf8(mem: seq<Byte>, str: nat, n: nat, ghost cps: seq<CodePoint>) returns (at: nat)
    requires Spells(mem, str, cps)
    ensures at == str + Off(cps, if n <= |cps| then n else |cps|)
  {
    hide Spells, Decode, Readable;
    at := str;
    var left := n;
    while left != 0
      invariant 0 <= left <= n
      invariant at == str + Off(cps, if n - left <= |cps| then n - left else |cps|)
      decreases left
    {
      left := left - 1;
      ReadsAs(mem, str, cps, if n - left - 1 <= |cps| then n - left - 1 else |cps|);
      var _, next := ReadUtf8(mem, at);
      at := next;
    }
  }

  /** The forms of cps one after another. */
  ghost function Text(cps: seq<CodePoint>): (s: seq<Byte>)
    ensures |s| == Off(cps, |cps|)
    decreases |cps|
  {
    if cps == [] then [] else
      var front := cps[..|cps| - 1];
      OffOfPrefix(cps, |front|, |front|);
      Text(front) + Form(cps[|cps| - 1])
  }

  lemma {:induction false} OffOfPrefix(cps: seq<CodePoint>, n: nat, k: nat)
    requires k <= n <= |cps|
    ensures Off(cps[..n], k) == Off(cps, k)
    decreases k
  {
    if k > 0 { OffOfPrefix(cps, n, k - 1); }
  }

  lemma OffGrows(cps: seq<CodePoint>, j: nat, k: nat)
    requires j <= k <= |cps|
    ensures Off(cps, j) + (k - j) <= Off(cps, k)
  {
  }

  lemma {:induction false} TextFormAt(cps: seq<CodePoint>, k: nat)
    requires k < |cps|
    ensures FormAt(Text(cps) + [0], Off(cps, k), cps[k])
    decreases |cps|
  {
    hide Form, FormLen, FormAt;
    var n := |cps| - 1;
    var front := cps[..n];
    OffOfPrefix(cps, n, k);
    if k < n {
      TextFormAt(front, k);
      OffOfPrefix(cps, n, k + 1);
      OffGrows(front, k + 1, n);
      OneFurther(Text(front), Form(cps[n]), Off(front, k), front[k]);
    } else {
      FormAtEnd(Text(front), cps[n]);
    }
  }

  /** Whatever was written with WriteUtf8, one code point after another, spells those code points. */
  lemma TextSpells(cps: seq<CodePoint>)
    ensures Spells(Text(cps) + [0], 0, cps)
  {
    hide Form, FormLen, FormAt, Text, Off;
    forall k | 0 <= k < |cps| ensures FormAt(Text(cps) + [0], 0 + Off(cps, k), cps[k]) {
      TextFormAt(cps, k);
    }
  }

  lemma OneFurther(text: seq<Byte>, more: seq<Byte>, at: nat, cp: CodePoint)
    requires FormAt(text + [0], at, cp) && at + FormLen(cp) <= |text|
    ensures FormAt(text + more + [0], at, cp)
  {
    hide Form, FormLen;
    var b := at + FormLen(cp);
    assert (text + more + [0])[at..b] == (text + [0])[at..b];
  }

  lemma FormAtEnd(text: seq<Byte>, cp: CodePoint)
    ensures FormAt(text + Form(cp) + [0], |text|, cp)
  {
    hide Form, FormLen;
    assert (text + Form(cp) + [0])[|text|..|text| + FormLen(cp)] == Form(cp);
  }

  /** A string spells only one sequence of code points: no two texts are confused. */
  lemma {:induction false} ReadingIsUnique(mem: seq<Byte>, pos: nat, a: seq<CodePoint>, b: seq<CodePoint>)
    requires Spells(mem, pos, a) && Spells(mem, pos, b)
    ensures a == b
  {
    hide Spells, Decode, Readable;
    var k := 0;
    ReadsAs(mem, pos, a, 0);
    ReadsAs(mem, pos, b, 0);
    while k < |a| && k < |b|
      invariant k <= |a| && k <= |b| && a[..k] == b[..k]
      invariant Off(a, k) == Off(b, k)
    {
      ReadsAs(mem, pos, a, k);
      ReadsAs(mem, pos, b, k);
      k := k + 1;
    }
    ReadsAs(mem, pos, a, k);
    ReadsAs(mem, pos, b, k);
  }
}
