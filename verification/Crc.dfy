/** The table-free CRC-32 that guards the sidecar slots, the table-driven one of section 8 of
    RFC 1952, and the damage that either detects. A 32-bit register is written as its bits, lowest
    first. */
module Crc {
  import opened Bytes

  type Word = w: seq<bool> | |w| == 32 witness seq(32, _ => false)
  type Octet = o: seq<bool> | |o| == 8 witness seq(8, _ => false)

  /** 0xEDB88320. */
  const POLY: Word :=
    [false, false, false, false, false, true, false, false,
     true, true, false, false, false, false, false, true,
     false, false, false, true, true, true, false, true,
     true, false, true, true, false, true, true, true]

  function Clear(n: nat): (z: seq<bool>)
    ensures |z| == n && forall i :: 0 <= i < n ==> !z[i]
  {
    seq(n, _ => false)
  }

  function Xor(a: Word, b: Word): Word {
    seq(32, i requires 0 <= i < 32 => a[i] != b[i])
  }

  function ShiftRight(c: Word, n: nat): (r: Word)
    requires n <= 32
  {
    c[n..] + Clear(n)
  }

  function Not(c: Word): (r: Word)
    ensures forall i :: 0 <= i < 32 ==> r[i] == !c[i]
  {
    seq(32, i requires 0 <= i < 32 => !c[i])
  }

  /** The lowest `n` bits of a number, lowest first. */
  function BitsOf(x: nat, n: nat): (s: seq<bool>)
    ensures |s| == n
  {
    if n == 0 then [] else [x % 2 == 1] + BitsOf(x / 2, n - 1)
  }

  function Bits(b: byte): Octet {
    BitsOf(b, 8)
  }

  function Bit(b: bool): nat { if b then 1 else 0 }

  lemma BitsCons(b: bool, y: nat, n: nat)
    ensures BitsOf(Bit(b) + 2 * y, n + 1) == [b] + BitsOf(y, n)
  {
    var x := Bit(b) + 2 * y;
    assert x % 2 == Bit(b) && x / 2 == y;
  }

  lemma FourBits(b0: bool, b1: bool, b2: bool, b3: bool, y: nat, n: nat)
    ensures BitsOf(Bit(b0) + 2 * Bit(b1) + 4 * Bit(b2) + 8 * Bit(b3) + 16 * y, n + 4) ==
            [b0, b1, b2, b3] + BitsOf(y, n)
  {
    hide BitsOf, Bit;
    var y3 := Bit(b3) + 2 * y;
    var y2 := Bit(b2) + 2 * y3;
    var y1 := Bit(b1) + 2 * y2;
    BitsCons(b3, y, n);
    BitsCons(b2, y3, n + 1);
    BitsCons(b1, y2, n + 2);
    BitsCons(b0, y1, n + 3);
    assert [b0] + ([b1] + ([b2] + ([b3] + BitsOf(y, n)))) == [b0, b1, b2, b3] + BitsOf(y, n);
  }

  lemma EightBits(b0: bool, b1: bool, b2: bool, b3: bool, b4: bool, b5: bool, b6: bool, b7: bool)
    ensures BitsOf(Bit(b0) + 2 * Bit(b1) + 4 * Bit(b2) + 8 * Bit(b3)
                   + 16 * (Bit(b4) + 2 * Bit(b5) + 4 * Bit(b6) + 8 * Bit(b7)), 8) == [b0, b1, b2, b3, b4, b5, b6, b7]
  {
    hide BitsOf, Bit;
    FourBits(b4, b5, b6, b7, 0, 0);
    FourBits(b0, b1, b2, b3, Bit(b4) + 2 * Bit(b5) + 4 * Bit(b6) + 8 * Bit(b7), 4);
    assert [b0, b1, b2, b3] + ([b4, b5, b6, b7] + BitsOf(0, 0)) == [b0, b1, b2, b3, b4, b5, b6, b7];
  }

  lemma PolyIsEDB88320()
    ensures POLY == Bits(0x20) + Bits(0x83) + Bits(0xB8) + Bits(0xED)
  {
    hide BitsOf;
    EightBits(false, false, false, false, false, true, false, false);
    EightBits(true, true, false, false, false, false, false, true);
    EightBits(false, false, false, true, true, true, false, true);
    EightBits(true, false, true, true, false, true, true, true);
  }

  function Widen(o: Octet): Word {
    o + Clear(24)
  }

  // The bitwise form

  /** One bit: shift out the lowest, and add the polynomial if it was set. */
  function Step(c: Word): Word {
    Xor(ShiftRight(c, 1), if c[0] then POLY else Clear(32))
  }

  lemma StepBit(c: Word, i: nat)
    requires i < 32
    ensures Step(c)[i] == ((i < 31 && c[i + 1]) != (c[0] && POLY[i]))
  {
  }

  function Steps(c: Word, n: nat): Word {
    if n == 0 then c else Step(Steps(c, n - 1))
  }

  function Feed(c: Word, b: byte): Word {
    Steps(Xor(c, Widen(Bits(b))), 8)
  }

  /** The register after all bytes, from a given start. */
  function Register(c: Word, data: Bytes): Word {
    if data == [] then c else Feed(Register(c, data[..|data| - 1]), data[|data| - 1])
  }

  function Crc32(data: Bytes): Word {
    Not(Register(Not(Clear(32)), data))
  }

  /** The code's loops. */
  method ComputeCrc(data: Bytes) returns (crc: Word)
    ensures crc == Crc32(data)
  {
    hide Xor, Step, Widen, Not;
    crc := Not(Clear(32));
    for i := 0 to |data|
      invariant crc == Register(Not(Clear(32)), data[..i])
    {
      crc := Xor(crc, Widen(Bits(data[i])));
      ghost var fed := crc;
      for bit := 0 to 8
        invariant crc == Steps(fed, bit)
      {
        crc := Step(crc);
      }
      assert data[..i + 1][..i] == data[..i];
    }
    assert data[..|data|] == data;
    crc := Not(crc);
  }

  // The table-driven form

  function TableStep(c: Word): Word {
    if c[0] then Xor(POLY, ShiftRight(c, 1)) else ShiftRight(c, 1)
  }

  function TableSteps(c: Word, n: nat): Word {
    if n == 0 then c else TableStep(TableSteps(c, n - 1))
  }

  function LowByte(c: Word): Word {
    c[..8] + Clear(24)
  }

  /** The entry of the table of 8-bit messages that the low byte of `c` selects. */
  function TableEntry(c: Word): Word {
    TableSteps(LowByte(c), 8)
  }

  function TableRegister(c: Word, data: Bytes): Word {
    if data == [] then c
    else
      var before := TableRegister(c, data[..|data| - 1]);
      Xor(TableEntry(Xor(before, Widen(Bits(data[|data| - 1])))), ShiftRight(before, 8))
  }

  function TableCrc32(data: Bytes): Word {
    Xor(TableRegister(Xor(Clear(32), Not(Clear(32))), data), Not(Clear(32)))
  }

  // Linearity

  lemma StepLinear(a: Word, b: Word)
    ensures Step(Xor(a, b)) == Xor(Step(a), Step(b))
  {
    hide Step;
    var l, r := Step(Xor(a, b)), Xor(Step(a), Step(b));
    forall i | 0 <= i < 32
      ensures l[i] == r[i]
    {
      StepBit(a, i);
      StepBit(b, i);
      StepBit(Xor(a, b), i);
    }
  }

  lemma {:induction false} StepsLinear(a: Word, b: Word, n: nat)
    ensures Steps(Xor(a, b), n) == Xor(Steps(a, n), Steps(b, n))
  {
    hide Step, Xor;
    if n > 0 {
      StepsLinear(a, b, n - 1);
      StepLinear(Steps(a, n - 1), Steps(b, n - 1));
    }
  }

  /** A register whose low bits are clear is only shifted. */
  lemma {:induction false} StepsShift(c: Word, n: nat)
    requires n <= 32 && forall i :: 0 <= i < n ==> !c[i]
    ensures Steps(c, n) == ShiftRight(c, n)
  {
    hide Step;
    if n > 0 {
      StepsShift(c, n - 1);
      var s := ShiftRight(c, n - 1);
      var t := ShiftRight(c, n);
      forall i | 0 <= i < 32
        ensures Step(s)[i] == t[i]
      {
        StepBit(s, i);
      }
    }
  }

  lemma SameStep(c: Word)
    ensures TableStep(c) == Step(c)
  {
    hide Step;
    var t, s := TableStep(c), Step(c);
    forall i | 0 <= i < 32
      ensures t[i] == s[i]
    {
      StepBit(c, i);
    }
  }

  lemma {:induction false} SameSteps(c: Word, n: nat)
    ensures TableSteps(c, n) == Steps(c, n)
  {
    hide Step, TableStep;
    if n > 0 {
      SameSteps(c, n - 1);
      SameStep(Steps(c, n - 1));
    }
  }

  /** Eight bits at once: the low byte goes through the table, the rest is shifted. */
  lemma ByteAtOnce(x: Word)
    ensures Steps(x, 8) == Xor(TableEntry(x), ShiftRight(x, 8))
  {
    hide Step, TableStep, Steps, TableSteps;
    var low, high := LowByte(x), Clear(8) + x[8..];
    assert Xor(low, high) == x;
    StepsLinear(low, high, 8);
    StepsShift(high, 8);
    assert ShiftRight(high, 8) == ShiftRight(x, 8);
    SameSteps(low, 8);
  }

  lemma WidenShift(c: Word, o: Octet)
    ensures ShiftRight(Xor(c, Widen(o)), 8) == ShiftRight(c, 8)
  {
  }

  lemma {:induction false} SameRegister(c: Word, data: Bytes)
    ensures TableRegister(c, data) == Register(c, data)
  {
    hide Steps, TableEntry, Xor, Widen, ShiftRight, Bits;
    if data != [] {
      var init, b := data[..|data| - 1], data[|data| - 1];
      SameRegister(c, init);
      var before := Register(c, init);
      ByteAtOnce(Xor(before, Widen(Bits(b))));
      WidenShift(before, Bits(b));
    }
  }

  /** The bitwise loop computes the CRC-32 of RFC 1952 on every byte string. */
  lemma BitwiseIsTableDriven(data: Bytes)
    ensures Crc32(data) == TableCrc32(data)
  {
    hide Register, TableRegister;
    assert Xor(Clear(32), Not(Clear(32))) == Not(Clear(32));
    SameRegister(Not(Clear(32)), data);
    var r := Register(Not(Clear(32)), data);
    assert Xor(r, Not(Clear(32))) == Not(r);
  }

  // Detection

  /** The polynomial has its highest bit set, so a step can be undone. */
  lemma StepInjective(a: Word, b: Word)
    requires Step(a) == Step(b)
    ensures a == b
  {
    hide Step;
    StepBit(a, 31);
    StepBit(b, 31);
    forall i | 0 <= i < 32
      ensures a[i] == b[i]
    {
      if i > 0 {
        StepBit(a, i - 1);
        StepBit(b, i - 1);
      }
    }
  }

  lemma {:induction false} StepsInjective(a: Word, b: Word, n: nat)
    requires Steps(a, n) == Steps(b, n)
    ensures a == b
  {
    hide Step;
    if n > 0 {
      StepInjective(Steps(a, n - 1), Steps(b, n - 1));
      StepsInjective(a, b, n - 1);
    }
  }

  lemma XorInjective(c: Word, a: Word, b: Word)
    requires Xor(c, a) == Xor(c, b)
    ensures a == b
  {
    forall i | 0 <= i < 32
      ensures a[i] == b[i]
    {
      assert Xor(c, a)[i] == Xor(c, b)[i];
    }
  }

  lemma XorInjectiveLeft(a: Word, b: Word, c: Word)
    requires Xor(a, c) == Xor(b, c)
    ensures a == b
  {
    forall i | 0 <= i < 32
      ensures a[i] == b[i]
    {
      assert Xor(a, c)[i] == Xor(b, c)[i];
    }
  }

  /** Equal bytes fed to different registers leave them different. */
  lemma {:induction false} RegisterInjective(a: Word, b: Word, data: Bytes)
    requires Register(a, data) == Register(b, data)
    ensures a == b
  {
    hide Steps, Xor, Widen, Bits;
    if data != [] {
      var init, last := data[..|data| - 1], Widen(Bits(data[|data| - 1]));
      StepsInjective(Xor(Register(a, init), last), Xor(Register(b, init), last), 8);
      XorInjectiveLeft(Register(a, init), Register(b, init), last);
      RegisterInjective(a, b, init);
    }
  }

  lemma {:induction false} RegisterSplit(c: Word, a: Bytes, b: Bytes)
    ensures Register(c, a + b) == Register(Register(c, a), b)
  {
    hide Feed;
    if b == [] {
      assert a + b == a;
    } else {
      assert (a + b)[..|a + b| - 1] == a + b[..|b| - 1];
      RegisterSplit(c, a, b[..|b| - 1]);
    }
  }

  /** Feeding one byte, with later bytes already added above it. */
  lemma FeedAhead(c: Word, b: byte, rest: seq<bool>)
    requires |rest| == 24
    ensures Steps(Xor(c, Bits(b) + rest), 8) == Xor(Feed(c, b), rest + Clear(8))
  {
    hide Steps, Bits;
    var high: Word := Clear(8) + rest;
    var fed := Xor(c, Widen(Bits(b)));
    assert Xor(c, Bits(b) + rest) == Xor(fed, high);
    StepsLinear(fed, high, 8);
    StepsShift(high, 8);
    assert ShiftRight(high, 8) == rest + Clear(8);
  }

  lemma {:induction false} StepsSplit(c: Word, m: nat, n: nat)
    ensures Steps(c, m + n) == Steps(Steps(c, m), n)
    decreases n
  {
    hide Step;
    if n > 0 {
      StepsSplit(c, m, n - 1);
    }
  }

  /** Four bytes are one 32-bit word added to the register and 32 steps. */
  lemma FourBytes(c: Word, b0: byte, b1: byte, b2: byte, b3: byte)
    ensures Feed(Feed(Feed(Feed(c, b0), b1), b2), b3) ==
            Steps(Xor(c, Bits(b0) + Bits(b1) + Bits(b2) + Bits(b3)), 32)
  {
    hide Steps, Bits, Feed, Xor;
    var w := Xor(c, Bits(b0) + Bits(b1) + Bits(b2) + Bits(b3));
    StepsSplit(w, 8, 24);
    StepsSplit(Steps(w, 8), 8, 16);
    StepsSplit(Steps(Steps(w, 8), 8), 8, 8);
    assert Bits(b0) + Bits(b1) + Bits(b2) + Bits(b3) == Bits(b0) + (Bits(b1) + Bits(b2) + Bits(b3));
    FeedAhead(c, b0, Bits(b1) + Bits(b2) + Bits(b3));
    assert Bits(b1) + Bits(b2) + Bits(b3) + Clear(8) == Bits(b1) + (Bits(b2) + Bits(b3) + Clear(8));
    FeedAhead(Feed(c, b0), b1, Bits(b2) + Bits(b3) + Clear(8));
    assert Bits(b2) + Bits(b3) + Clear(8) + Clear(8) == Bits(b2) + (Bits(b3) + Clear(8) + Clear(8));
    FeedAhead(Feed(Feed(c, b0), b1), b2, Bits(b3) + Clear(8) + Clear(8));
    assert Bits(b3) + Clear(8) + Clear(8) + Clear(8) == Bits(b3) + Clear(24);
    FeedAhead(Feed(Feed(Feed(c, b0), b1), b2), b3, Clear(24));
    XorZero(Feed(Feed(Feed(Feed(c, b0), b1), b2), b3));
  }

  lemma XorZero(c: Word)
    ensures Xor(c, Clear(24) + Clear(8)) == c
  {
  }

  function Number(s: seq<bool>): nat {
    if s == [] then 0 else (if s[0] then 1 else 0) + 2 * Number(s[1..])
  }

  function Pow2(n: nat): nat {
    if n == 0 then 1 else 2 * Pow2(n - 1)
  }

  lemma {:induction false} NumberBits(x: nat, n: nat)
    requires x < Pow2(n)
    ensures Number(BitsOf(x, n)) == x
  {
    if n > 0 {
      NumberBits(x / 2, n - 1);
      assert BitsOf(x, n)[1..] == BitsOf(x / 2, n - 1);
    }
  }

  lemma BitsInjective(a: byte, b: byte)
    requires Bits(a) == Bits(b)
    ensures a == b
  {
    assert Pow2(4) == 16 && Pow2(8) == 256;
    NumberBits(a, 8);
    NumberBits(b, 8);
  }

  /** The 32 bits of four bytes at a position. */
  function WordAt(f: Bytes, at: nat): Word
    requires at + 4 <= |f|
  {
    Bits(f[at]) + Bits(f[at + 1]) + Bits(f[at + 2]) + Bits(f[at + 3])
  }

  lemma WordInjective(a: Bytes, b: Bytes)
    requires |a| == |b| == 4 && WordAt(a, 0) == WordAt(b, 0)
    ensures a == b
  {
    hide Bits;
    forall k | 0 <= k < 4
      ensures a[k] == b[k]
    {
      assert WordAt(a, 0)[8 * k..8 * k + 8] == Bits(a[k]);
      assert WordAt(b, 0)[8 * k..8 * k + 8] == Bits(b[k]);
      BitsInjective(a[k], b[k]);
    }
  }

  lemma RegisterFour(c: Word, w: Bytes)
    requires |w| == 4
    ensures Register(c, w) == Steps(Xor(c, WordAt(w, 0)), 32)
  {
    hide Steps, Xor, Feed, Bits;
    FourBytes(c, w[0], w[1], w[2], w[3]);
    assert w[..3][..2] == w[..2] && w[..2][..1] == w[..1] && w[..1][..0] == [];
    assert Register(c, w[..1]) == Feed(c, w[0]);
    assert Register(c, w[..2]) == Feed(Feed(c, w[0]), w[1]);
    assert Register(c, w[..3]) == Feed(Feed(Feed(c, w[0]), w[1]), w[2]);
  }

  lemma FourInjective(c: Word, a: Bytes, b: Bytes)
    requires |a| == |b| == 4 && Register(c, a) == Register(c, b)
    ensures a == b
  {
    hide Steps, Xor, Register, WordAt;
    RegisterFour(c, a);
    RegisterFour(c, b);
    StepsInjective(Xor(c, WordAt(a, 0)), Xor(c, WordAt(b, 0)), 32);
    XorInjective(c, WordAt(a, 0), WordAt(b, 0));
    WordInjective(a, b);
  }

  /** Strings that agree outside one window of four bytes and leave the same register are equal. */
  lemma WindowInjective(c: Word, a: Bytes, b: Bytes, i: nat)
    requires |a| == |b| && i + 4 <= |a| && a[..i] == b[..i] && a[i + 4..] == b[i + 4..]
    requires Register(c, a) == Register(c, b)
    ensures a == b
  {
    hide Register;
    assert a == (a[..i] + a[i..i + 4]) + a[i + 4..];
    assert b == (b[..i] + b[i..i + 4]) + b[i + 4..];
    RegisterSplit(c, a[..i] + a[i..i + 4], a[i + 4..]);
    RegisterSplit(c, b[..i] + b[i..i + 4], b[i + 4..]);
    RegisterInjective(Register(c, a[..i] + a[i..i + 4]), Register(c, b[..i] + b[i..i + 4]), a[i + 4..]);
    RegisterSplit(c, a[..i], a[i..i + 4]);
    RegisterSplit(c, b[..i], b[i..i + 4]);
    FourInjective(Register(c, a[..i]), a[i..i + 4], b[i..i + 4]);
  }

  lemma NotInjective(a: Word, b: Word)
    requires Not(a) == Not(b)
    ensures a == b
  {
    forall i | 0 <= i < 32
      ensures a[i] == b[i]
    {
      assert Not(a)[i] == Not(b)[i];
    }
  }

  /** Two different strings of equal length that differ only within four adjacent bytes never share
      a CRC. */
  lemma DetectsBursts(a: Bytes, b: Bytes, i: nat)
    requires |a| == |b| && a != b
    requires forall j :: 0 <= j < |a| && !(i <= j < i + 4) ==> a[j] == b[j]
    ensures Crc32(a) != Crc32(b)
  {
    hide Register, Not;
    if Crc32(a) == Crc32(b) {
      var c := Not(Clear(32));
      NotInjective(Register(c, a), Register(c, b));
      var a', b' := a + Zeros(4), b + Zeros(4);
      RegisterSplit(c, a, Zeros(4));
      RegisterSplit(c, b, Zeros(4));
      var at := if i < |a| then i else |a|;
      assert a'[..at] == b'[..at] && a'[at + 4..] == b'[at + 4..];
      assert a == a'[..|a|] && b == b'[..|b|];
      WindowInjective(c, a', b', at);
    }
  }
}
