/** CRC-32 with a table (scripts/check-brand-assets.js) against eight shift and xor steps per byte
    (section 5.5 of the W3C PNG specification). */
module Crc {
  type Byte = b: int | 0 <= b < 256 witness 0

  /** Bits, the least significant first. */
  type Bits = seq<bool>

  const WIDTH := 32

  // ----- numbers and bits

  function OfNumber(v: nat, n: nat): (w: Bits)
    ensures |w| == n
    decreases n
  {
    if n == 0 then [] else [v % 2 == 1] + OfNumber(v / 2, n - 1)
  }

  function Number(w: Bits): nat { if w == [] then 0 else (if w[0] then 1 else 0) + 2 * Number(w[1..]) }

  function Power(n: nat): nat { if n == 0 then 1 else 2 * Power(n - 1) }

  lemma {:induction false} NumberRoundTrip(w: Bits)
    ensures OfNumber(Number(w), |w|) == w && Number(w) < Power(|w|)
  {
    if w != [] { NumberRoundTrip(w[1..]); }
  }

  /** A small number has no high bits. */
  lemma {:induction false} HighBitsClear(v: nat, n: nat, m: nat)
    requires m <= n && v < Power(m)
    ensures OfNumber(v, n) == OfNumber(v, n)[..m] + Zeros(n - m)
    decreases n
  {
    if n > 0 {
      if m == 0 {
        HighBitsClear(0, n - 1, 0);
      } else {
        HighBitsClear(v / 2, n - 1, m - 1);
        assert OfNumber(v, n)[1..] == OfNumber(v / 2, n - 1);
      }
    }
  }

  function Zeros(n: nat): (w: Bits)
    ensures |w| == n && forall i | 0 <= i < n :: !w[i]
  {
    seq(n, i => false)
  }

  function Xor(a: Bits, b: Bits): (w: Bits)
    requires |a| == |b|
    ensures |w| == |a| && forall i | 0 <= i < |a| :: w[i] == (a[i] != b[i])
  {
    seq(|a|, i requires 0 <= i < |a| => a[i] != b[i])
  }

  // ----- the bitwise definition

  const POLYNOMIAL := OfNumber(0xedb8_8320, WIDTH)
  const ONES := OfNumber(0xffff_ffff, WIDTH)

  /** Shift right by `n`. */
  function Down(a: Bits, n: nat): (w: Bits)
    requires n <= |a|
    ensures |w| == |a|
  {
    a[n..] + Zeros(n)
  }

  /** One step: shift out a bit, and fold the polynomial in when it was set. */
  function Shifted(c: Bits): (w: Bits)
    requires |c| == WIDTH
    ensures |w| == WIDTH
  {
    if c[0] then Xor(POLYNOMIAL, Down(c, 1)) else Down(c, 1)
  }

  function Steps(c: Bits, n: nat): (w: Bits)
    requires |c| == WIDTH
    ensures |w| == WIDTH
    decreases n
  {
    if n == 0 then c else Steps(Shifted(c), n - 1)
  }

  /** The register after a byte string, one bit at a time. */
  function Register(crc: Bits, bytes: seq<Byte>): (w: Bits)
    requires |crc| == WIDTH
    ensures |w| == WIDTH
    decreases bytes
  {
    if bytes == [] then crc else Register(Steps(Xor(crc, OfNumber(bytes[0], WIDTH)), 8), bytes[1..])
  }

  function Crc32(bytes: seq<Byte>): nat { Number(Xor(Register(ONES, bytes), ONES)) }

  // ----- a whole byte at once

  lemma ShiftedXor(a: Bits, b: Bits)
    requires |a| == |b| == WIDTH
    ensures Shifted(Xor(a, b)) == Xor(Shifted(a), Shifted(b))
  {
    assert Down(Xor(a, b), 1) == Xor(Down(a, 1), Down(b, 1));
  }

  /** The steps are linear. */
  lemma {:induction false} StepsXor(a: Bits, b: Bits, n: nat)
    requires |a| == |b| == WIDTH
    ensures Steps(Xor(a, b), n) == Xor(Steps(a, n), Steps(b, n))
    decreases n
  {
    hide Shifted;
    if n > 0 {
      ShiftedXor(a, b);
      StepsXor(Shifted(a), Shifted(b), n - 1);
    }
  }

  /** While the low bits are clear, steps only shift. */
  lemma {:induction false} ClearStepsShift(c: Bits, n: nat)
    requires |c| == WIDTH && n <= WIDTH && forall i | 0 <= i < n :: !c[i]
    ensures Steps(c, n) == Down(c, n)
    decreases n
  {
    if n == 0 {
      assert c[0..] + [] == c;
    } else {
      var d := Down(c, 1);
      ClearStepsShift(d, n - 1);
      assert Down(d, n - 1) == Down(c, n);
    }
  }

  /** The low byte alone. */
  function LowByte(c: Bits): (w: Bits)
    requires |c| == WIDTH
    ensures |w| == WIDTH
  {
    c[..8] + Zeros(WIDTH - 8)
  }

  lemma ByteLeavesHigh(crc: Bits, b: Byte)
    requires |crc| == WIDTH
    ensures Down(Xor(crc, OfNumber(b, WIDTH)), 8) == Down(crc, 8)
  {
    assert Power(8) == 256 by { assert Power(4) == 16; }
    HighBitsClear(b, WIDTH, 8);
    var w := OfNumber(b, WIDTH);
    assert forall i | 8 <= i < WIDTH :: w[i] == (w[..8] + Zeros(WIDTH - 8))[i];
  }

  /** One table lookup does eight steps. */
  lemma LookupIsEightSteps(crc: Bits, b: Byte)
    requires |crc| == WIDTH
    ensures Steps(Xor(crc, OfNumber(b, WIDTH)), 8) == Xor(Steps(LowByte(Xor(crc, OfNumber(b, WIDTH))), 8), Down(crc, 8))
  {
    hide Steps;
    var x := Xor(crc, OfNumber(b, WIDTH));
    var low, high := LowByte(x), Zeros(8) + x[8..];
    assert Xor(low, high) == x;
    StepsXor(low, high, 8);
    ClearStepsShift(high, 8);
    ByteLeavesHigh(crc, b);
    assert Down(high, 8) == Down(x, 8);
  }

  // ----- what the sum is for

  /** Four bits of a number, then the rest of it. */
  lemma NibbleAt(v: nat, n: nat, i: nat)
    requires n >= 4 && i < n
    ensures i == 0 ==> OfNumber(v, n)[i] == (v % 2 == 1)
    ensures i == 1 ==> OfNumber(v, n)[i] == (v / 2 % 2 == 1)
    ensures i == 2 ==> OfNumber(v, n)[i] == (v / 4 % 2 == 1)
    ensures i == 3 ==> OfNumber(v, n)[i] == (v / 8 % 2 == 1)
    ensures i >= 4 ==> OfNumber(v, n)[i] == OfNumber(v / 16, n - 4)[i - 4]
  {
    assert OfNumber(v, n)[1..] == OfNumber(v / 2, n - 1);
    assert OfNumber(v / 2, n - 1)[1..] == OfNumber(v / 4, n - 2);
    assert OfNumber(v / 4, n - 2)[1..] == OfNumber(v / 8, n - 3);
    assert OfNumber(v / 8, n - 3)[1..] == OfNumber(v / 16, n - 4);
  }

  lemma LowTerms(i: nat)
    requires i < 16
    ensures OfNumber(0xedb8_8320, 32)[i] <==> i in {5, 8, 9, 15}
  {
    hide OfNumber;
    NibbleAt(0xedb8_8320, 32, i);
    if i >= 4 { NibbleAt(0xedb_8832, 28, i - 4); }
    if i >= 8 { NibbleAt(0xed_b883, 24, i - 8); }
    if i >= 12 { NibbleAt(0xe_db88, 20, i - 12); }
  }

  lemma UpperHalf(v: nat, i: nat)
    requires 16 <= i < 32
    ensures OfNumber(v, 32)[i] == OfNumber(v / 0x1_0000, 16)[i - 16]
  {
    hide OfNumber;
    NibbleAt(v, 32, i);
    NibbleAt(v / 16, 28, i - 4);
    NibbleAt(v / 16 / 16, 24, i - 8);
    NibbleAt(v / 16 / 16 / 16, 20, i - 12);
  }

  lemma HighTerms(i: nat)
    requires 16 <= i < 32
    ensures OfNumber(0xedb8_8320, 32)[i] <==> i in {19, 20, 21, 23, 24, 26, 27, 29, 30, 31}
  {
    hide OfNumber;
    UpperHalf(0xedb8_8320, i);
    NibbleAt(0xedb8, 16, i - 16);
    if i >= 20 { NibbleAt(0xedb, 12, i - 20); }
    if i >= 24 { NibbleAt(0xed, 8, i - 24); }
    if i >= 28 { NibbleAt(0xe, 4, i - 28); }
  }

  lemma Halved(v: nat, p: nat)
    requires v + 1 == 2 * p
    ensures v % 2 == 1 && v / 2 + 1 == p
  {
  }

  lemma {:induction false} AllOnes(v: nat, n: nat, i: nat)
    requires v + 1 == Power(n) && i < n
    ensures OfNumber(v, n)[i]
    decreases n
  {
    Halved(v, Power(n - 1));
    if i > 0 { AllOnes(v / 2, n - 1, i - 1); }
  }

  /** The generator x^32 + x^26 + x^23 + x^22 + x^16 + x^12 + x^11 + x^10 + x^8 + x^7 + x^5 + x^4 + x^2 + x + 1, its highest
      power left out and the others stored from the top bit of the register down; and a register of ones. */
  lemma Generator(i: nat)
    requires i < WIDTH
    ensures POLYNOMIAL[i] <==> 31 - i in {26, 23, 22, 16, 12, 11, 10, 8, 7, 5, 4, 2, 1, 0}
    ensures ONES[i]
  {
    hide OfNumber;
    if i < 16 { LowTerms(i); } else { HighTerms(i); }
    assert Power(32) == 0x1_0000_0000 by { assert Power(8) == 256 && Power(16) == 0x1_0000 && Power(24) == 0x100_0000; }
    AllOnes(0xffff_ffff, 32, i);
  }

  /** The bytes of a register, the low one first. */
  function LowFirst(w: Bits, n: nat): (r: seq<Byte>)
    requires |w| == WIDTH && n <= 4
    ensures |r| == n
    decreases n
  {
    if n == 0 then [] else
      SlotOf(w);
      [Number(w[..8])] + LowFirst(Down(w, 8), n - 1)
  }

  /** A word taken in byte by byte is taken in at once. */
  lemma {:induction false} TakesIn(c: Bits, w: Bits, n: nat)
    requires |c| == |w| == WIDTH && n <= 4 && forall i :: 8 * n <= i < WIDTH ==> !w[i]
    ensures Register(c, LowFirst(w, n)) == Steps(Xor(c, w), 8 * n)
    decreases n
  {
    hide Steps, Xor, Down, OfNumber, Number;
    if n == 0 {
      assert Xor(c, w) == c;
      NoSteps(c);
    } else {
      SlotOf(w);
      var low := OfNumber(Number(w[..8]), WIDTH);
      LowByteFirst(c, w);
      DownClear(w, n);
      TakesIn(Steps(Xor(c, low), 8), Down(w, 8), n - 1);
      StepsMore(Xor(c, w), 8, 8 * (n - 1));
      assert LowFirst(w, n)[1..] == LowFirst(Down(w, 8), n - 1);
    }
  }

  lemma DownClear(w: Bits, n: nat)
    requires |w| == WIDTH && 0 < n <= 4 && forall i :: 8 * n <= i < WIDTH ==> !w[i]
    ensures forall i :: 8 * (n - 1) <= i < WIDTH ==> !Down(w, 8)[i]
  {
  }

  /** Eight steps with a whole word in the register: those of its low byte, and the rest of the word moved down. */
  lemma LowByteFirst(c: Bits, w: Bits)
    requires |c| == |w| == WIDTH
    ensures Steps(Xor(c, w), 8) == Xor(Steps(Xor(c, LowByte(w)), 8), Down(w, 8))
  {
    hide Steps;
    var low, high := LowByte(w), Zeros(8) + w[8..];
    assert Xor(c, w) == Xor(Xor(c, low), high);
    StepsXor(Xor(c, low), high, 8);
    ClearStepsShift(high, 8);
    assert Down(high, 8) == Down(w, 8);
  }

  lemma NoSteps(c: Bits)
    requires |c| == WIDTH
    ensures Steps(c, 0) == c
  {
  }

  lemma {:induction false} StepsMore(c: Bits, m: nat, n: nat)
    requires |c| == WIDTH
    ensures Steps(c, m + n) == Steps(Steps(c, m), n)
    decreases m
  {
    hide Shifted;
    if m > 0 { StepsMore(Shifted(c), m - 1, n); }
  }

  lemma {:induction false} RegisterMore(c: Bits, a: seq<Byte>, b: seq<Byte>)
    requires |c| == WIDTH
    ensures Register(c, a + b) == Register(Register(c, a), b)
    decreases a
  {
    hide Steps;
    if a == [] {
      assert a + b == b;
    } else {
      assert (a + b)[1..] == a[1..] + b;
      RegisterMore(Steps(Xor(c, OfNumber(a[0], WIDTH)), 8), a[1..], b);
    }
  }

  /** A step can be undone: the top bit of the generator is set, and a shift leaves it clear. */
  lemma ShiftedInjective(a: Bits, b: Bits)
    requires |a| == |b| == WIDTH && Shifted(a) == Shifted(b)
    ensures a == b
  {
    hide OfNumber;
    Generator(31);
    TopBit(a);
    TopBit(b);
    forall i | 0 < i < WIDTH
      ensures a[i] == b[i]
    {
      OtherBits(a, i - 1);
      OtherBits(b, i - 1);
    }
  }

  lemma TopBit(a: Bits)
    requires |a| == WIDTH && POLYNOMIAL[31]
    ensures Shifted(a)[31] == a[0]
  {
    hide OfNumber;
  }

  lemma OtherBits(a: Bits, i: nat)
    requires |a| == WIDTH && i < 31
    ensures Shifted(a)[i] == ((a[0] && POLYNOMIAL[i]) != a[i + 1])
  {
    hide OfNumber;
  }

  lemma {:induction false} StepsInjective(a: Bits, b: Bits, n: nat)
    requires |a| == |b| == WIDTH && Steps(a, n) == Steps(b, n)
    ensures a == b
    decreases n
  {
    hide Shifted;
    if n > 0 {
      StepsInjective(Shifted(a), Shifted(b), n - 1);
      ShiftedInjective(a, b);
    }
  }

  /** The four bytes of a sum, as a PNG chunk stores them but the low one first. */
  function SumBytes(bytes: seq<Byte>): (r: seq<Byte>)
    ensures |r| == 4
  {
    LowFirst(Xor(Register(ONES, bytes), ONES), 4)
  }

  /** The word four bytes make, the low one first. */
  function WordOf(four: seq<Byte>): (w: Bits)
    requires |four| == 4
    ensures |w| == WIDTH
  {
    OfNumber(four[0], 8) + OfNumber(four[1], 8) + OfNumber(four[2], 8) + OfNumber(four[3], 8)
  }

  lemma {:induction false} NumberBack(v: nat, n: nat)
    requires v < Power(n)
    ensures Number(OfNumber(v, n)) == v
    decreases n
  {
    if n > 0 { NumberBack(v / 2, n - 1); }
  }

  lemma ByteBack(b: Byte)
    ensures Number(OfNumber(b, 8)) == b
  {
    assert Power(8) == 256 by { assert Power(4) == 16; }
    NumberBack(b, 8);
  }

  lemma WordBack(four: seq<Byte>)
    requires |four| == 4
    ensures LowFirst(WordOf(four), 4) == four
  {
    hide OfNumber, Number;
    ByteBack(four[0]);
    ByteBack(four[1]);
    ByteBack(four[2]);
    ByteBack(four[3]);
    var w := WordOf(four);
    var x := Down(w, 8);
    var y := Down(x, 8);
    var z := Down(y, 8);
    assert w[..8] == OfNumber(four[0], 8);
    assert x == OfNumber(four[1], 8) + OfNumber(four[2], 8) + OfNumber(four[3], 8) + Zeros(8) && x[..8] == OfNumber(four[1], 8);
    assert y == OfNumber(four[2], 8) + OfNumber(four[3], 8) + Zeros(8) + Zeros(8) && y[..8] == OfNumber(four[2], 8);
    assert z == OfNumber(four[3], 8) + Zeros(8) + Zeros(8) + Zeros(8) && z[..8] == OfNumber(four[3], 8);
    assert LowFirst(z, 1) == [four[3]] by { assert LowFirst(Down(z, 8), 0) == []; }
    assert LowFirst(y, 2) == [four[2]] + LowFirst(z, 1);
    assert LowFirst(x, 3) == [four[1]] + LowFirst(y, 2);
    assert LowFirst(w, 4) == [four[0]] + LowFirst(x, 3);
  }

  /** Behind any bytes, four more leave the one fixed value in the register exactly when they are the sum of those bytes:
      the sum accepts itself and no other four bytes. */
  lemma SumAcceptsItselfOnly(bytes: seq<Byte>, four: seq<Byte>)
    requires |four| == 4
    ensures Register(ONES, bytes + four) == Steps(ONES, 32) <==> four == SumBytes(bytes)
    ensures Crc32(bytes) == Number(Xor(Register(ONES, bytes), ONES))
  {
    hide Steps, LowFirst, Register, Xor, OfNumber, WordOf;
    var c := Register(ONES, bytes);
    var w, sum := WordOf(four), Xor(c, ONES);
    RegisterMore(ONES, bytes, four);
    WordBack(four);
    TakesIn(c, w, 4);
    XorBack(c, ONES);
    if Steps(Xor(c, w), 32) == Steps(ONES, 32) {
      StepsInjective(Xor(c, w), ONES, 32);
      XorBack(c, w);
    }
    if four == SumBytes(bytes) { TakesIn(c, sum, 4); }
  }

  lemma XorBack(c: Bits, w: Bits)
    requires |c| == |w|
    ensures Xor(c, Xor(c, w)) == w
  {
  }

  // ----- the code

  predicate IsTable(table: seq<Bits>) {
    |table| == 256 && forall i: nat | i < 256 :: table[i] == Steps(OfNumber(i, WIDTH), 8)
  }

  /** CRC_TABLE. */
  method BuildTable() returns (table: array<Bits>)
    ensures fresh(table) && IsTable(table[..])
  {
    hide Xor, Down, OfNumber;
    table := new Bits[256];
    for index := 0 to 256
      invariant forall i: nat | i < index :: table[i] == Steps(OfNumber(i, WIDTH), 8)
    {
      var value := OfNumber(index, WIDTH);
      for bit := 0 to 8
        invariant |value| == WIDTH && Steps(OfNumber(index, WIDTH), 8) == Steps(value, 8 - bit)
      {
        value := if value[0] then Xor(POLYNOMIAL, Down(value, 1)) else Down(value, 1);
      }
      table[index] := value;
    }
  }

  /** The low byte as a table index. */
  lemma SlotOf(x: Bits)
    requires |x| == WIDTH
    ensures Number(x[..8]) < 256 && OfNumber(Number(x[..8]), WIDTH) == LowByte(x)
  {
    var v := Number(x[..8]);
    NumberRoundTrip(x[..8]);
    assert Power(8) == 256 by { assert Power(4) == 16; }
    HighBitsClear(v, WIDTH, 8);
    PrefixBits(v, WIDTH, 8);
  }

  lemma {:induction false} PrefixBits(v: nat, n: nat, m: nat)
    requires m <= n
    ensures OfNumber(v, n)[..m] == OfNumber(v, m)
    decreases m
  {
    if m > 0 { PrefixBits(v / 2, n - 1, m - 1); }
  }

  /** One byte of the loop of crc32. */
  method Lookup(table: array<Bits>, crc: Bits, b: Byte) returns (next: Bits)
    requires IsTable(table[..]) && |crc| == WIDTH
    ensures next == Steps(Xor(crc, OfNumber(b, WIDTH)), 8)
  {
    hide Steps, Xor, Down, OfNumber, Number, LowByte;
    var x := Xor(crc, OfNumber(b, WIDTH));
    LookupIsEightSteps(crc, b);
    SlotOf(x);
    var slot := Number(x[..8]);
    assert table[..][slot] == Steps(OfNumber(slot, WIDTH), 8);
    next := Xor(table[slot], Down(crc, 8));
  }

  /** crc32: with the table it is the bitwise CRC, for every byte string. */
  method ComputeCrc32(table: array<Bits>, bytes: seq<Byte>) returns (r: nat)
    requires IsTable(table[..])
    ensures r == Crc32(bytes)
  {
    hide Steps, Xor, OfNumber;
    var crc := ONES;
    assert bytes[0..] == bytes;
    for i := 0 to |bytes|
      invariant |crc| == WIDTH && Register(ONES, bytes) == Register(crc, bytes[i..])
    {
      assert bytes[i..][1..] == bytes[i + 1..] && bytes[i..][0] == bytes[i];
      crc := Lookup(table, crc, bytes[i]);
    }
    return Number(Xor(crc, ONES));
  }
}
