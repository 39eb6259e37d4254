// The MSB-first CRC-32 that the core (crc32.cpp), the boot loader (eboot_command.c)
// and the image builder (elf2bin.py) each implement, with its error-detection law.
module Crc32 {
  import opened Bytes
  import CR = CrcRegister

  predicate Top(crc: bv32) {
    crc & 0x8000_0000 != 0
  }

  /** One message bit entering the register. */
  function Step(crc: bv32, bit: bool): bv32 {
    if Top(crc) != bit then (crc << 1) ^ 0x04c1_1db7 else crc << 1
  }

  function Feed(crc: bv32, bits: seq<bool>): bv32
    decreases |bits|
  {
    if bits == [] then crc else Step(Feed(crc, bits[..|bits| - 1]), bits[|bits| - 1])
  }

  /** The value of bit k of a byte, counted from the top. */
  function Mask(k: nat): nat
    requires k < 8
  {
    [0x80, 0x40, 0x20, 0x10, 0x08, 0x04, 0x02, 0x01][k]
  }

  predicate Bit(b: byte, k: nat)
    requires k < 8
  {
    b / Mask(k) % 2 == 1
  }

  /** The bits of a byte string in processing order: each byte from its top bit down. */
  function Bits(data: seq<byte>): seq<bool> {
    seq(8 * |data|, i requires 0 <= i < 8 * |data| => Bit(data[i / 8], i % 8))
  }

  /** The CRC of a byte string, started from a given register. */
  function Crc(crc: bv32, data: seq<byte>): bv32 {
    Feed(crc, Bits(data))
  }

  lemma {:induction false} FeedConcat(crc: bv32, a: seq<bool>, b: seq<bool>)
    ensures Feed(crc, a + b) == Feed(Feed(crc, a), b)
    decreases |b|
  {
    if b == [] {
      assert a + b == a;
    } else {
      FeedConcat(crc, a, b[..|b| - 1]);
      assert (a + b)[..|a + b| - 1] == a + b[..|b| - 1];
    }
  }

  lemma BitsConcat(a: seq<byte>, b: seq<byte>)
    ensures Bits(a + b) == Bits(a) + Bits(b)
  {
  }

  /** A CRC can be computed piecewise: this is what lets checkFlashCRC skip two words. */
  lemma CrcConcat(crc: bv32, a: seq<byte>, b: seq<byte>)
    ensures Crc(crc, a + b) == Crc(Crc(crc, a), b)
  {
    BitsConcat(a, b);
    FeedConcat(crc, Bits(a), Bits(b));
  }

  // ----- error detection -----

  /** The bit i places below the top. */
  predicate BitAt(r: bv32, i: nat)
    decreases i
  {
    if i == 0 then Top(r) else BitAt(r << 1, i - 1)
  }

  function RegisterOf(r: bv32): CR.Register {
    seq(32, i requires 0 <= i < 32 => BitAt(r, i))
  }

  lemma Shifts(r: bv32)
    ensures r << 1 << 1 == r << 2 && r << 2 << 2 == r << 4 && r << 4 << 4 == r << 8
  {
  }

  lemma BitAtTwo(r: bv32, i: nat)
    ensures BitAt(r, i + 2) == BitAt(r << 2, i)
  {
    Shifts(r);
    assert BitAt(r, i + 2) == BitAt(r << 1, i + 1);
  }

  lemma BitAtFour(r: bv32, i: nat)
    ensures BitAt(r, i + 4) == BitAt(r << 4, i)
  {
    Shifts(r);
    BitAtTwo(r, i + 2);
    BitAtTwo(r << 2, i);
  }

  lemma BitAtEight(r: bv32, i: nat)
    ensures BitAt(r, i + 8) == BitAt(r << 8, i)
  {
    Shifts(r);
    BitAtFour(r, i + 4);
    BitAtFour(r << 4, i);
  }

  lemma BitAtEnd(r: bv32)
    ensures !BitAt(r, 32)
  {
    BitAtEight(r, 24);
    BitAtEight(r << 8, 16);
    BitAtEight(r << 8 << 8, 8);
    BitAtEight(r << 8 << 8 << 8, 0);
  }

  lemma PolyIsOdd()
    ensures BitAt(0x04c1_1db7, 31)
  {
    BitAtEight(0x04c1_1db7, 23);
    BitAtEight(0xc11d_b700, 15);
    BitAtEight(0x1db7_0000, 7);
    assert BitAt(0xb700_0000, 7) == BitAt(0x6e00_0000, 6) == BitAt(0xdc00_0000, 5) == BitAt(0xb800_0000, 4);
    assert BitAt(0xb800_0000, 4) == BitAt(0x7000_0000, 3) == BitAt(0xe000_0000, 2) == BitAt(0xc000_0000, 1);
  }

  function PolyBits(): CR.Generator {
    PolyIsOdd();
    seq(32, i requires 0 <= i < 32 => BitAt(0x04c1_1db7, i))
  }

  lemma TopXor(x: bv32, y: bv32)
    ensures Top(x ^ y) == (Top(x) != Top(y))
    ensures (x ^ y) << 1 == (x << 1) ^ (y << 1)
  {
  }

  lemma {:induction false} BitAtXor(x: bv32, y: bv32, i: nat)
    ensures BitAt(x ^ y, i) == (BitAt(x, i) != BitAt(y, i))
    decreases i
  {
    TopXor(x, y);
    if i > 0 {
      BitAtXor(x << 1, y << 1, i - 1);
    }
  }

  lemma StepShifts(r: bv32, bit: bool)
    ensures RegisterOf(Step(r, bit)) == CR.Shifted(PolyBits(), RegisterOf(r), bit)
  {
    forall i | 0 <= i < 32
      ensures BitAt(Step(r, bit), i) == ((i < 31 && BitAt(r, i + 1)) != (Top(r) != bit && BitAt(0x04c1_1db7, i)))
    {
      assert BitAt(r << 1, i) == BitAt(r, i + 1);
      BitAtXor(r << 1, 0x04c1_1db7, i);
      BitAtEnd(r);
    }
  }

  lemma {:induction false} FeedRuns(r: bv32, bits: seq<bool>)
    ensures RegisterOf(Feed(r, bits)) == CR.Run(PolyBits(), RegisterOf(r), bits)
    decreases |bits|
  {
    if bits != [] {
      var front := bits[..|bits| - 1];
      FeedRuns(r, front);
      StepShifts(Feed(r, front), bits[|bits| - 1]);
    }
  }

  /** Burst detection: two messages that differ, and only inside one window of 32
      consecutive bits, have different CRCs, whatever register they start from. */
  lemma BurstDetected(crc: bv32, a: seq<bool>, b: seq<bool>, w: nat)
    requires |a| == |b| && a != b
    requires forall i :: 0 <= i < |a| && a[i] != b[i] ==> w <= i < w + 32
    ensures Feed(crc, a) != Feed(crc, b)
  {
    FeedRuns(crc, a);
    FeedRuns(crc, b);
    CR.BurstChangesRegister(PolyBits(), RegisterOf(crc), a, b, w);
  }

  function Digit(x: byte, k: nat): nat
    requires k < 8
  {
    if Bit(x, k) then 1 else 0
  }

  lemma Halving(x: nat)
    ensures x == 2 * (x / 2) + x % 2
    ensures x / 2 / 2 == x / 4 && x / 4 / 2 == x / 8
  {
  }

  lemma HalvingMore(x: nat)
    ensures x / 8 / 2 == x / 0x10 && x / 0x10 / 2 == x / 0x20
  {
  }

  lemma HalvingMost(x: nat)
    ensures x / 0x20 / 2 == x / 0x40 && x / 0x40 / 2 == x / 0x80
  {
  }

  lemma DigitsAre(x: byte)
    ensures Digit(x, 0) == x / 0x80 && Digit(x, 1) == x / 0x40 % 2 && Digit(x, 2) == x / 0x20 % 2
    ensures Digit(x, 3) == x / 0x10 % 2 && Digit(x, 4) == x / 8 % 2 && Digit(x, 5) == x / 4 % 2
    ensures Digit(x, 6) == x / 2 % 2 && Digit(x, 7) == x % 2
  {
  }

  lemma ByteOfBits(x: byte)
    ensures x == 0x80 * Digit(x, 0) + 0x40 * Digit(x, 1) + 0x20 * Digit(x, 2) + 0x10 * Digit(x, 3)
                 + 8 * Digit(x, 4) + 4 * Digit(x, 5) + 2 * Digit(x, 6) + Digit(x, 7)
  {
    DigitsAre(x);
    Halving(x);
    HalvingMore(x);
    HalvingMost(x);
  }

  lemma BitsTellBytes(x: byte, y: byte)
    requires x != y
    ensures exists k :: 0 <= k < 8 && Bit(x, k) != Bit(y, k)
  {
    if forall k :: 0 <= k < 8 ==> Bit(x, k) == Bit(y, k) {
      assert forall k :: 0 <= k < 8 ==> Digit(x, k) == Digit(y, k);
      ByteOfBits(x);
      ByteOfBits(y);
    }
  }

  lemma BitsTellMessages(a: seq<byte>, b: seq<byte>, k: nat)
    requires |a| == |b| && k < |a| && a[k] != b[k]
    ensures Bits(a) != Bits(b)
  {
    BitsTellBytes(a[k], b[k]);
    var j :| 0 <= j < 8 && Bit(a[k], j) != Bit(b[k], j);
    assert (8 * k + j) / 8 == k && (8 * k + j) % 8 == j;
    assert Bits(a)[8 * k + j] != Bits(b)[8 * k + j];
  }

  /** The same law on bytes: messages that differ only inside four consecutive bytes. */
  lemma FourBytesDetected(crc: bv32, a: seq<byte>, b: seq<byte>, w: nat)
    requires |a| == |b| && a != b
    requires forall i :: 0 <= i < |a| && a[i] != b[i] ==> w <= i < w + 4
    ensures Crc(crc, a) != Crc(crc, b)
  {
    var k :| 0 <= k < |a| && a[k] != b[k];
    BitsTellMessages(a, b, k);
    BurstDetected(crc, Bits(a), Bits(b), 8 * w);
  }

  lemma WordsTellCrcs(x: bv32, y: bv32)
    requires x != y
    ensures x as int != y as int
  {
    assert (x as int) as bv32 == x && (y as int) as bv32 == y;
  }

  // ----- the implementations -----

  function ByteBits(c: byte): seq<bool> {
    seq(8, k requires 0 <= k < 8 => Bit(c, k))
  }

  lemma NextBit(crc: bv32, c: byte, k: nat)
    requires k < 8
    ensures Feed(crc, ByteBits(c)[..k + 1]) == Step(Feed(crc, ByteBits(c)[..k]), Bit(c, k))
  {
    assert ByteBits(c)[..k + 1][..k] == ByteBits(c)[..k];
  }

  lemma NextByte(crc: bv32, data: seq<byte>, n: nat)
    requires n < |data|
    ensures Crc(crc, data[..n + 1]) == Feed(Crc(crc, data[..n]), ByteBits(data[n]))
  {
    assert data[..n + 1] == data[..n] + [data[n]];
    BitsConcat(data[..n], [data[n]]);
    assert Bits([data[n]]) == ByteBits(data[n]);
    FeedConcat(crc, Bits(data[..n]), ByteBits(data[n]));
  }

  method CrcBit(crc: bv32, high: bool) returns (r: bv32)
    ensures r == Step(crc, high)
  {
    var bit := crc & 0x8000_0000 != 0;
    if high {
      bit := !bit;
    }
    r := crc << 1;
    if bit {
      r := r ^ 0x04c1_1db7;
    }
  }

  method CrcByte(crc: bv32, c: byte) returns (r: bv32)
    ensures r == Feed(crc, ByteBits(c))
  {
    r := crc;
    // i runs through the powers of two of the mask; c / i is odd exactly when c & i is set
    var i := 0x80;
    ghost var k := 0;
    while i > 0
      invariant 0 <= k <= 8 && i == if k == 8 then 0 else Mask(k)
      invariant r == Feed(crc, ByteBits(c)[..k])
      decreases 8 - k
    {
      NextBit(crc, c, k);
      r := CrcBit(r, c / i % 2 == 1);
      i := i / 2;
      k := k + 1;
    }
    assert ByteBits(c)[..8] == ByteBits(c);
  }

  /** crc_update of the boot loader; crc32 of the core is the same loop. */
  method CrcUpdate(crc: bv32, data: seq<byte>) returns (r: bv32)
    ensures r == Crc(crc, data)
  {
    r := crc;
    var n := 0;
    assert Bits(data[..0]) == [];
    while n < |data|
      invariant 0 <= n <= |data|
      invariant r == Crc(crc, data[..n])
    {
      NextByte(crc, data, n);
      r := CrcByte(r, data[n]);
      n := n + 1;
    }
    assert data[..n] == data;
  }

  // ----- a known answer -----

  lemma FeedMore(crc: bv32, bits: seq<bool>, bit: bool)
    ensures Feed(crc, bits + [bit]) == Step(Feed(crc, bits), bit)
  {
    assert (bits + [bit])[..|bits|] == bits;
  }

  function FourSteps(crc: bv32, b0: bool, b1: bool, b2: bool, b3: bool): bv32 {
    Step(Step(Step(Step(crc, b0), b1), b2), b3)
  }

  lemma FeedFour(crc: bv32, b0: bool, b1: bool, b2: bool, b3: bool)
    ensures Feed(crc, [b0, b1, b2, b3]) == FourSteps(crc, b0, b1, b2, b3)
  {
    hide Step;
    FeedTwo(crc, b0, b1);
    FeedTwo(Step(Step(crc, b0), b1), b2, b3);
    hide Feed;
    FeedConcat(crc, [b0, b1], [b2, b3]);
    assert [b0, b1] + [b2, b3] == [b0, b1, b2, b3];
  }

  lemma FeedTwo(crc: bv32, b0: bool, b1: bool)
    ensures Feed(crc, [b0, b1]) == Step(Step(crc, b0), b1)
  {
    hide Step;
    FeedMore(crc, [], b0);
    FeedMore(crc, [b0], b1);
    assert [] + [b0] == [b0] && [b0] + [b1] == [b0, b1];
  }

  /** A byte of eight digits, top digit first. */
  lemma FeedByte(crc: bv32, b: byte, b0: bool, b1: bool, b2: bool, b3: bool, b4: bool, b5: bool, b6: bool, b7: bool)
    requires Bit(b, 0) == b0 && Bit(b, 1) == b1 && Bit(b, 2) == b2 && Bit(b, 3) == b3
    requires Bit(b, 4) == b4 && Bit(b, 5) == b5 && Bit(b, 6) == b6 && Bit(b, 7) == b7
    ensures Crc(crc, [b]) == FourSteps(FourSteps(crc, b0, b1, b2, b3), b4, b5, b6, b7)
  {
    hide Bit, Step, FourSteps;
    assert Bits([b]) == [b0, b1, b2, b3] + [b4, b5, b6, b7];
    FeedConcat(crc, [b0, b1, b2, b3], [b4, b5, b6, b7]);
    FeedFour(crc, b0, b1, b2, b3);
    FeedFour(FourSteps(crc, b0, b1, b2, b3), b4, b5, b6, b7);
  }

  /** The check value of CRC-32/MPEG-2, which this is: the CRC of the digits "123456789". */
  lemma CheckValue()
    ensures Crc(0xffff_ffff, [0x31, 0x32, 0x33, 0x34, 0x35, 0x36, 0x37, 0x38, 0x39]) == 0x0376_e6e7
  {
    hide Crc, Step;
    var a: seq<byte>, b: seq<byte>, c: seq<byte> := [0x31, 0x32, 0x33], [0x34, 0x35, 0x36], [0x37, 0x38, 0x39];
    CheckThree();
    CheckSix();
    CheckNine();
    CrcConcat(0xffff_ffff, a, b + c);
    CrcConcat(0xd952_f164, b, c);
    assert [0x31, 0x32, 0x33, 0x34, 0x35, 0x36, 0x37, 0x38, 0x39] == a + (b + c);
  }

  lemma DigitOne()
    ensures Crc(0xffff_ffff, [0x31]) == 0x9efb_cf93
  {
    FeedByte(0xffff_ffff, 0x31, false, false, true, true, false, false, false, true);
  }

  lemma DigitTwo()
    ensures Crc(0x9efb_cf93, [0x32]) == 0x3fec_5e6a
  {
    FeedByte(0x9efb_cf93, 0x32, false, false, true, true, false, false, true, false);
  }

  lemma DigitThree()
    ensures Crc(0x3fec_5e6a, [0x33]) == 0xd952_f164
  {
    FeedByte(0x3fec_5e6a, 0x33, false, false, true, true, false, false, true, true);
  }

  lemma DigitFour()
    ensures Crc(0xd952_f164, [0x34]) == 0xa695_c4aa
  {
    FeedByte(0xd952_f164, 0x34, false, false, true, true, false, true, false, false);
  }

  lemma DigitFive()
    ensures Crc(0xa695_c4aa, [0x35]) == 0xbd9a_b747
  {
    FeedByte(0xa695_c4aa, 0x35, false, false, true, true, false, true, false, true);
  }

  lemma DigitSix()
    ensures Crc(0xbd9a_b747, [0x36]) == 0xd8f0_6c8f
  {
    FeedByte(0xbd9a_b747, 0x36, false, false, true, true, false, true, true, false);
  }

  lemma DigitSeven()
    ensures Crc(0xd8f0_6c8f, [0x37]) == 0x0d8a_14c4
  {
    FeedByte(0xd8f0_6c8f, 0x37, false, false, true, true, false, true, true, true);
  }

  lemma DigitEight()
    ensures Crc(0x0d8a_14c4, [0x38]) == 0x49e3_c2fb
  {
    FeedByte(0x0d8a_14c4, 0x38, false, false, true, true, true, false, false, false);
  }

  lemma DigitNine()
    ensures Crc(0x49e3_c2fb, [0x39]) == 0x0376_e6e7
  {
    FeedByte(0x49e3_c2fb, 0x39, false, false, true, true, true, false, false, true);
  }

  lemma CheckThree()
    ensures Crc(0xffff_ffff, [0x31, 0x32, 0x33]) == 0xd952_f164
  {
    hide Crc;
    ThreeBytes(0xffff_ffff, 0x31, 0x32, 0x33);
    DigitOne();
    DigitTwo();
    DigitThree();
  }

  lemma CheckSix()
    ensures Crc(0xd952_f164, [0x34, 0x35, 0x36]) == 0xd8f0_6c8f
  {
    hide Crc;
    ThreeBytes(0xd952_f164, 0x34, 0x35, 0x36);
    DigitFour();
    DigitFive();
    DigitSix();
  }

  lemma CheckNine()
    ensures Crc(0xd8f0_6c8f, [0x37, 0x38, 0x39]) == 0x0376_e6e7
  {
    hide Crc;
    ThreeBytes(0xd8f0_6c8f, 0x37, 0x38, 0x39);
    DigitSeven();
    DigitEight();
    DigitNine();
  }

  lemma ThreeBytes(crc: bv32, a: byte, b: byte, c: byte)
    ensures Crc(crc, [a, b, c]) == Crc(Crc(Crc(crc, [a]), [b]), [c])
  {
    CrcConcat(crc, [a, b], [c]);
    CrcConcat(crc, [a], [b]);
    assert [a, b, c] == [a, b] + [c] && [a, b] == [a] + [b];
  }
}
