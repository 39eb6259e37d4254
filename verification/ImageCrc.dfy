// The checksum elf2bin.py puts into an image, and EspClass::checkFlashCRC, which checks it on
// the device.
module ImageCrc {
  import opened Bytes
  import opened Crc32
  import EC = EbootCommand

  const CRCSIZE_OFFSET := 4112
  const CRCVAL_OFFSET := 4116

  /** The two words, and the rest of the image around them. */
  function WithWords(raw: seq<byte>, size: seq<byte>, val: seq<byte>): (r: seq<byte>)
    requires |raw| >= 4120 && |size| == |val| == 4
    ensures |r| == |raw|
  {
    raw[..4112] + size + val + raw[4120..]
  }

  function Zeros(): (z: seq<byte>)
    ensures |z| == 4
  {
    [0, 0, 0, 0]
  }

  /** The image with both words zeroed: what the checksum covers. */
  function Covered(raw: seq<byte>): (r: seq<byte>)
    requires |raw| >= 4120
    ensures |r| == |raw|
  {
    WithWords(raw, Zeros(), Zeros())
  }

  /** What add_crc turns an image into. */
  function WithCrc(raw: seq<byte>): (r: seq<byte>)
    requires |raw| >= 4120
    ensures |r| == |raw|
  {
    WithWords(raw, WordBytes(|raw| % 0x1_0000_0000), WordBytes(EC.CrcWord(Covered(raw))))
  }

  // ----- the image builder -----

  /** int(crc << 1) & 0xffffffff: one bit wider than the register, then masked. */
  function ShiftMasked(crc: bv32): bv32 {
    (((crc as bv64) << 1) & 0xffff_ffff) as bv32
  }

  lemma ShiftMaskedIs(crc: bv32)
    ensures ShiftMasked(crc) == crc << 1
  {
  }

  /** One bit of crc8266, on an integer that is masked to 32 bits. */
  method Crc8266Bit(crc: bv32, high: bool) returns (r: bv32)
    ensures r == Step(crc, high)
  {
    hide ShiftMasked;
    ShiftMaskedIs(crc);
    var bit := crc & 0x8000_0000;
    if high {
      if bit == 0 {
        bit := 1;
      } else {
        bit := 0;
      }
    }
    r := ShiftMasked(crc);
    if bit != 0 {
      r := r ^ 0x04c1_1db7;
    }
  }

  /** The loop over the bits of one byte. */
  method Crc8266Byte(start: bv32, byte: byte) returns (crc: bv32)
    ensures crc == Feed(start, ByteBits(byte))
  {
    crc := start;
    var masks := [0x80, 0x40, 0x20, 0x10, 0x08, 0x04, 0x02, 0x01];
    var k := 0;
    while k < 8
      invariant 0 <= k <= 8 && crc == Feed(start, ByteBits(byte)[..k])
    {
      NextBit(start, byte, k);
      assert masks[k] == Mask(k);
      crc := Crc8266Bit(crc, byte / masks[k] % 2 == 1);
      k := k + 1;
    }
    assert ByteBits(byte)[..8] == ByteBits(byte);
  }

  /** crc8266 agrees with the loop of the boot loader and of the core on every input. */
  method Crc8266(ldata: seq<byte>) returns (crc: bv32)
    ensures crc == Crc(0xffff_ffff, ldata)
  {
    crc := 0xffff_ffff;
    assert Bits(ldata[..0]) == [];
    var idx := 0;
    while idx < |ldata|
      invariant 0 <= idx <= |ldata| && crc == Crc(0xffff_ffff, ldata[..idx])
    {
      NextByte(0xffff_ffff, ldata, idx);
      crc := Crc8266Byte(crc, ldata[idx]);
      idx := idx + 1;
    }
    assert ldata[..idx] == ldata;
  }

  function Overwritten(raw: seq<byte>, offset: nat, word: seq<byte>): (r: seq<byte>)
    requires offset + |word| <= |raw|
    ensures |r| == |raw|
  {
    raw[..offset] + word + raw[offset + |word|..]
  }

  lemma BothOverwritten(raw: seq<byte>, size: seq<byte>, val: seq<byte>)
    requires |raw| >= 4120 && |size| == |val| == 4
    ensures Overwritten(Overwritten(raw, 4112, size), 4116, val) == WithWords(raw, size, val)
  {
  }

  lemma CoveredThenWords(raw: seq<byte>, size: seq<byte>, val: seq<byte>)
    requires |raw| >= 4120 && |size| == |val| == 4
    ensures WithWords(Covered(raw), size, val) == WithWords(raw, size, val)
  {
  }

  /** store_word; false is the exception Python raises for a missing byte. */
  method StoreWord(raw: array<byte>, offset: nat, val: nat) returns (ok: bool)
    modifies raw
    ensures ok <==> offset + 4 <= raw.Length
    ensures ok ==> raw[..] == Overwritten(old(raw[..]), offset, WordBytes(val % 0x1_0000_0000))
  {
    if offset + 4 > raw.Length {
      return false;
    }
    StoredBytes(val);
    ghost var before := raw[..];
    raw[offset] := val % 0x100;
    raw[offset + 1] := val / 0x100 % 0x100;
    raw[offset + 2] := val / 0x1_0000 % 0x100;
    raw[offset + 3] := val / 0x100_0000 % 0x100;
    assert raw[..] == Overwritten(before, offset, WordBytes(val % 0x1_0000_0000));
    return true;
  }

  lemma StoredBytes(val: nat)
    ensures WordBytes(val % 0x1_0000_0000)
            == [val % 0x100, val / 0x100 % 0x100, val / 0x1_0000 % 0x100, val / 0x100_0000 % 0x100]
  {
    var q, w := val / 0x1_0000_0000, val % 0x1_0000_0000;
    assert val == q * 0x1_0000_0000 + w;
    Quotients(q, w);
  }

  lemma Quotients(q: nat, w: u32)
    ensures (q * 0x1_0000_0000 + w) % 0x100 == w % 0x100
    ensures (q * 0x1_0000_0000 + w) / 0x100 % 0x100 == w / 0x100 % 0x100
    ensures (q * 0x1_0000_0000 + w) / 0x1_0000 % 0x100 == w / 0x100 / 0x100 % 0x100
    ensures (q * 0x1_0000_0000 + w) / 0x100_0000 % 0x100 == w / 0x100 / 0x100 / 0x100
  {
    var w1 := w / 0x100;
    var w2 := w1 / 0x100;
    var w3, c0, c1, c2 := w2 / 0x100, w % 0x100, w1 % 0x100, w2 % 0x100;
    var val := q * 0x1_0000_0000 + w;
    DivUnique(val, 0x100, q * 0x100_0000 + w1, c0);
    DivUnique(q * 0x100_0000 + w1, 0x100, q * 0x1_0000 + w2, c1);
    DivUnique(val, 0x1_0000, q * 0x1_0000 + w2, 0x100 * c1 + c0);
    DivUnique(q * 0x1_0000 + w2, 0x100, q * 0x100 + w3, c2);
    DivUnique(val, 0x100_0000, q * 0x100 + w3, 0x1_0000 * c2 + 0x100 * c1 + c0);
    DivUnique(q * 0x100 + w3, 0x100, q, w3);
  }

  /** A CRC word as an integer of at most 32 bits. */
  lemma WordFits(crc: bv32)
    ensures (crc as int) % 0x1_0000_0000 == crc as int
  {
  }

  /** add_crc: the file is rewritten, unless it is too short and Python raises. */
  method AddCrc(file: seq<byte>) returns (out: Option<seq<byte>>)
    ensures out == if |file| >= 4120 then Some(WithCrc(file)) else None
  {
    hide WordBytes, EC.CrcWord, Overwritten, WithWords, Crc;
    var raw := new byte[|file|](i requires 0 <= i < |file| => file[i]);
    assert raw[..] == file;
    var ok := StoreWord(raw, CRCSIZE_OFFSET, 0);
    if !ok {
      return None;
    }
    ok := StoreWord(raw, CRCVAL_OFFSET, 0);
    if !ok {
      return None;
    }
    ZeroWord();
    BothOverwritten(file, Zeros(), Zeros());
    ghost var val := WordBytes(EC.CrcWord(Covered(file)));
    BothOverwritten(Covered(file), WordBytes(|file| % 0x1_0000_0000), val);
    CoveredThenWords(file, WordBytes(|file| % 0x1_0000_0000), val);
    var crc := Crc8266(raw[..]);
    CrcWordIs(raw[..]);
    ok := StoreWord(raw, CRCSIZE_OFFSET, raw.Length);
    ok := StoreWord(raw, CRCVAL_OFFSET, crc as int);
    WordFits(crc);
    return Some(raw[..]);
  }

  lemma ZeroWord()
    ensures WordBytes(0) == Zeros()
  {
  }

  lemma CrcWordIs(data: seq<byte>)
    ensures EC.CrcWord(data) == Crc(0xffff_ffff, data) as int
  {
  }

  // ----- the device -----

  /** checkFlashCRC over the flash as it is mapped into memory; None is a read beyond it. */
  method CheckFlashCrc(flash: seq<byte>) returns (res: Option<bool>)
    requires 4120 <= |flash| < 0x1_0000_0000
    ensures res == if LengthWord(flash) < 4120 || LengthWord(flash) > |flash| then None else Some(Checks(flash))
  {
    hide WordOf, Crc, Covered;
    var crcLen: int, crcVal := WordOf(flash[4112..4116]), WordOf(flash[4116..4120]);
    var z := Zeros() + Zeros();
    var crc := CrcUpdate(0xffff_ffff, flash[..4112]);
    crc := CrcUpdate(crc, z);
    var rest := (crcLen - 4120) % 0x1_0000_0000;
    if 4120 + rest > |flash| {
      return None;
    }
    crc := CrcUpdate(crc, flash[4120..4120 + rest]);
    InThreeParts(flash, crcLen);
    return Some(crc as int == crcVal);
  }

  /** The image size the flash claims to hold. */
  function LengthWord(flash: seq<byte>): u32
    requires |flash| >= 4120
  {
    WordOf(flash[4112..4116])
  }

  /** The checksum of the claimed image is right. */
  predicate Checks(flash: seq<byte>)
    requires |flash| >= 4120 && 4120 <= LengthWord(flash) <= |flash|
  {
    WordOf(flash[4116..4120]) == EC.CrcWord(Covered(flash[..LengthWord(flash)]))
  }

  /** The checksum taken in three parts is the checksum of the covered image. */
  lemma InThreeParts(flash: seq<byte>, n: nat)
    requires 4120 <= n <= |flash|
    ensures Crc(Crc(Crc(0xffff_ffff, flash[..4112]), Zeros() + Zeros()), flash[4120..n])
            == Crc(0xffff_ffff, Covered(flash[..n]))
  {
    hide Crc;
    var a, z, b := flash[..4112], Zeros() + Zeros(), flash[4120..n];
    CrcConcat(0xffff_ffff, a, z);
    CrcConcat(0xffff_ffff, a + z, b);
    assert flash[..n][..4112] == a && flash[..n][4120..] == b;
    assert Covered(flash[..n]) == a + z + b;
  }

  /** What the two words of a rewritten image are. */
  lemma Words(raw: seq<byte>, size: seq<byte>, val: seq<byte>)
    requires |raw| >= 4120 && |size| == |val| == 4
    ensures var r := WithWords(raw, size, val);
      && r[4112..4116] == size && r[4116..4120] == val && Covered(r) == Covered(raw)
  {
  }

  lemma WordsAlready(raw: seq<byte>, size: seq<byte>, val: seq<byte>)
    requires |raw| >= 4120 && |size| == |val| == 4
    ensures raw == WithWords(raw, size, val) <==> raw[4112..4116] == size && raw[4116..4120] == val
  {
    Words(raw, size, val);
    if raw[4112..4116] == size && raw[4116..4120] == val {
      assert raw == raw[..4112] + raw[4112..4116] + raw[4116..4120] + raw[4120..];
    }
  }

  /** Running elf2bin again changes nothing. */
  lemma AddCrcIdempotent(raw: seq<byte>)
    requires |raw| >= 4120
    ensures WithCrc(WithCrc(raw)) == WithCrc(raw)
  {
    hide WordBytes, EC.CrcWord;
    Words(raw, WordBytes(|raw| % 0x1_0000_0000), WordBytes(EC.CrcWord(Covered(raw))));
    WordsAlready(WithCrc(raw), WordBytes(|raw| % 0x1_0000_0000), WordBytes(EC.CrcWord(Covered(raw))));
  }

  /** The device accepts exactly the images that add_crc leaves alone. */
  lemma ChecksExact(flash: seq<byte>)
    requires |flash| >= 4120 && 4120 <= LengthWord(flash) <= |flash|
    ensures Checks(flash) <==> WithCrc(flash[..LengthWord(flash)]) == flash[..LengthWord(flash)]
  {
    hide WordBytes, WordOf, EC.CrcWord;
    var n := LengthWord(flash);
    var image := flash[..n];
    assert image[4112..4116] == flash[4112..4116] && image[4116..4120] == flash[4116..4120];
    BytesRoundTrip(image[4112..4116]);
    BytesRoundTrip(image[4116..4120]);
    WordRoundTrip(EC.CrcWord(Covered(image)));
    WordsAlready(image, WordBytes(n), WordBytes(EC.CrcWord(Covered(image))));
  }

  /** Every image that add_crc produced passes the check, wherever the flash goes on. */
  lemma BuiltImagePasses(raw: seq<byte>, flash: seq<byte>)
    requires 4120 <= |raw| < 0x1_0000_0000 && WithCrc(raw) <= flash
    ensures LengthWord(flash) == |raw| && Checks(flash)
  {
    hide WordBytes, WordOf, EC.CrcWord;
    var image := WithCrc(raw);
    Words(raw, WordBytes(|raw|), WordBytes(EC.CrcWord(Covered(raw))));
    WordRoundTrip(|raw|);
    assert flash[4112..4116] == image[4112..4116];
    assert flash[..|raw|] == image;
    AddCrcIdempotent(raw);
    ChecksExact(flash);
  }

  /** Corruption inside any 32 consecutive bits of an accepted image, away from the two words,
      is always noticed. */
  lemma BurstNoticed(flash: seq<byte>, other: seq<byte>, start: nat)
    requires |flash| == |other| >= 4120 && 4120 <= LengthWord(flash) <= |flash| && Checks(flash)
    requires flash[4112..4120] == other[4112..4120]
    requires var n := LengthWord(flash);
      && other[..n] != flash[..n]
      && var a, b := Bits(Covered(flash[..n])), Bits(Covered(other[..n]));
         forall i :: 0 <= i < |a| && a[i] != b[i] ==> start <= i < start + 32
    ensures LengthWord(other) == LengthWord(flash) && !Checks(other)
  {
    hide WordOf, Crc;
    assert flash[4112..4116] == flash[4112..4120][..4] && other[4112..4116] == other[4112..4120][..4];
    assert flash[4116..4120] == flash[4112..4120][4..] && other[4116..4120] == other[4112..4120][4..];
    var n := LengthWord(flash);
    var a, b := Covered(flash[..n]), Covered(other[..n]);
    var k :| 0 <= k < n && flash[k] != other[k];
    assert flash[..n][4112..4120] == flash[4112..4120] && other[..n][4112..4120] == other[4112..4120];
    CoveredTells(flash[..n], other[..n], k);
    CrcsDiffer(a, b, k, start);
    CrcWordIs(a);
    CrcWordIs(b);
  }

  lemma CoveredTells(a: seq<byte>, b: seq<byte>, k: nat)
    requires |a| == |b| >= 4120 && k < |a| && a[k] != b[k] && a[4112..4120] == b[4112..4120]
    ensures Covered(a)[k] != Covered(b)[k]
  {
    if 4112 <= k < 4120 {
      assert a[4112..4120][k - 4112] == b[4112..4120][k - 4112];
    }
  }

  lemma CrcsDiffer(a: seq<byte>, b: seq<byte>, k: nat, start: nat)
    requires |a| == |b| && k < |a| && a[k] != b[k]
    requires forall i :: 0 <= i < |Bits(a)| && Bits(a)[i] != Bits(b)[i] ==> start <= i < start + 32
    ensures Crc(0xffff_ffff, a) as int != Crc(0xffff_ffff, b) as int
  {
    BitsTellMessages(a, b, k);
    BurstDetected(0xffff_ffff, Bits(a), Bits(b), start);
    WordsTellCrcs(Crc(0xffff_ffff, a), Crc(0xffff_ffff, b));
  }

  lemma OneByteWindow(a: seq<byte>, b: seq<byte>, k: nat)
    requires |a| == |b| && forall i :: 0 <= i < |a| && i != k ==> a[i] == b[i]
    ensures forall i :: 0 <= i < |Bits(a)| && Bits(a)[i] != Bits(b)[i] ==> 8 * k <= i < 8 * k + 32
  {
  }

  /** In particular, changing any one byte ahead of the two words. */
  lemma ByteNoticed(flash: seq<byte>, k: nat, value: byte)
    requires |flash| >= 4120 && 4120 <= LengthWord(flash) <= |flash| && Checks(flash)
    requires k < 4112 && value != flash[k]
    ensures LengthWord(flash[k := value]) == LengthWord(flash) && !Checks(flash[k := value])
  {
    var n, other := LengthWord(flash), flash[k := value];
    assert other[4112..4120] == flash[4112..4120];
    assert flash[..n][k] != other[..n][k];
    forall i | 0 <= i < n && i != k ensures Covered(flash[..n])[i] == Covered(other[..n])[i] {
    }
    OneByteWindow(Covered(flash[..n]), Covered(other[..n]), k);
    BurstNoticed(flash, other, 8 * k);
  }
}
