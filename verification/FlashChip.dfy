// The SPI flash behind spi_flash_erase_sector / spi_flash_write / spi_flash_read: a byte
// array in which erasing sets a 4096-byte sector to 0xff and programming clears bits, or
// overwrites on PUYA chips, with operations that may fail at any time.
module FlashChip {
  import opened Bytes

  /** An operation issued to the chip, whether or not it succeeded. */
  datatype Op = Erase(sector: nat) | Program(addr: nat, len: nat)

  function Erased(cells: seq<byte>, sector: nat): seq<byte> {
    seq(|cells|, i requires 0 <= i < |cells| =>
      if sector * 0x1000 <= i < sector * 0x1000 + 0x1000 then 0xff else cells[i])
  }

  /** What one program operation leaves: old AND data, or just data on an overwriting chip. */
  function Programmed(overwrite: bool, cells: seq<byte>, addr: nat, data: seq<byte>): seq<byte> {
    seq(|cells|, i requires 0 <= i < |cells| =>
      if addr <= i < addr + |data| then
        (if overwrite then data[i - addr] else And(cells[i], data[i - addr]))
      else cells[i])
  }

  /** What a write promises on every chip: old AND data. */
  function Anded(cells: seq<byte>, addr: nat, data: seq<byte>): seq<byte> {
    Programmed(false, cells, addr, data)
  }

  /** The contents may differ only in [lo, hi). */
  predicate SameOutside(a: seq<byte>, b: seq<byte>, lo: int, hi: int) {
    |a| == |b| && forall i :: 0 <= i < |a| && !(lo <= i < hi) ==> a[i] == b[i]
  }

  lemma SameEverywhere(a: seq<byte>, lo: int, hi: int)
    ensures SameOutside(a, a, lo, hi)
  {
  }

  lemma OutsideThen(a: seq<byte>, b: seq<byte>, c: seq<byte>, lo: int, hi: int)
    requires SameOutside(a, b, lo, hi) && SameOutside(b, c, lo, hi)
    ensures SameOutside(a, c, lo, hi) && |a| == |c|
  {
  }

  lemma WiderOutside(a: seq<byte>, b: seq<byte>, lo: int, hi: int, wideLo: int, wideHi: int)
    requires SameOutside(a, b, lo, hi) && wideLo <= lo && hi <= wideHi
    ensures SameOutside(a, b, wideLo, wideHi) && |a| == |b|
  {
  }

  /** What a failed operation on [lo, hi) may leave: anything there. */
  function Garbled(cells: seq<byte>, junk: seq<byte>, lo: nat, hi: nat): (r: seq<byte>)
    ensures SameOutside(cells, r, lo, hi)
  {
    seq(|cells|, i requires 0 <= i < |cells| => if lo <= i < hi && i < |junk| then junk[i] else cells[i])
  }

  predicate InOnePage(op: Op) {
    op.Program? ==> op.len == 0 || op.addr / 0x100 == (op.addr + op.len - 1) / 0x100
  }

  /** Programs only, inside [lo, hi), in ascending order without overlap, and each within one
      256-byte page where that is asked for. */
  predicate Tidy(ops: seq<Op>, lo: nat, hi: nat, onePage: bool) {
    && (forall k :: 0 <= k < |ops| ==>
         ops[k].Program? && lo <= ops[k].addr && ops[k].addr + ops[k].len <= hi && (onePage ==> InOnePage(ops[k])))
    && forall j, k :: 0 <= j < k < |ops| ==> ops[j].addr + ops[j].len <= ops[k].addr
  }

  /** The operations issued between two points of the log. */
  ghost predicate Issued(before: seq<Op>, after: seq<Op>, lo: nat, hi: nat, onePage: bool) {
    before <= after && Tidy(after[|before|..], lo, hi, onePage)
  }

  lemma IssuedOne(before: seq<Op>, addr: nat, len: nat, onePage: bool)
    requires onePage ==> InOnePage(Program(addr, len))
    ensures Issued(before, before + [Program(addr, len)], addr, addr + len, onePage)
  {
  }

  lemma IssuedNone(log: seq<Op>, lo: nat, hi: nat, onePage: bool)
    ensures Issued(log, log, lo, hi, onePage)
  {
  }

  lemma IssuedWider(a: seq<Op>, b: seq<Op>, lo: nat, hi: nat, wideLo: nat, wideHi: nat, onePage: bool)
    requires Issued(a, b, lo, hi, onePage) && wideLo <= lo && hi <= wideHi
    ensures Issued(a, b, wideLo, wideHi, onePage) && (onePage ==> Issued(a, b, wideLo, wideHi, false)) && a <= b
  {
  }

  lemma IssuedThen(a: seq<Op>, b: seq<Op>, c: seq<Op>, lo: nat, mid: nat, hi: nat, onePage: bool)
    requires Issued(a, b, lo, mid, onePage) && Issued(b, c, mid, hi, onePage) && lo <= mid <= hi
    ensures Issued(a, c, lo, hi, onePage)
  {
    assert c[|a|..] == b[|a|..] + c[|b|..];
  }

  /** One program operation as an increment of a longer write. */
  lemma IssuedNext(log: seq<Op>, before: seq<Op>, lo: nat, addr: nat, len: nat, onePage: bool)
    requires Issued(log, before, lo, addr, onePage) && lo <= addr && (onePage ==> InOnePage(Program(addr, len)))
    ensures Issued(log, before + [Program(addr, len)], lo, addr + len, onePage)
  {
    IssuedOne(before, addr, len, onePage);
    IssuedThen(log, before, before + [Program(addr, len)], lo, addr, addr + len, onePage);
  }

  lemma ProgrammedSize(overwrite: bool, cells: seq<byte>, addr: nat, data: seq<byte>)
    ensures |Programmed(overwrite, cells, addr, data)| == |cells|
  {
  }

  /** A bit is set afterwards exactly when it was set and, in the range, is set in the data. */
  ghost predicate BitsCleared(before: seq<byte>, after: seq<byte>, addr: nat, data: seq<byte>) {
    && |after| == |before|
    && forall i, k: nat :: 0 <= i < |after| ==>
         (BitAt(after[i], k) <==> BitAt(before[i], k) && (addr <= i < addr + |data| ==> BitAt(data[i - addr], k)))
  }

  lemma AndedBits(cells: seq<byte>, addr: nat, data: seq<byte>)
    requires addr + |data| <= |cells|
    ensures BitsCleared(cells, Anded(cells, addr, data), addr, data)
  {
    hide And, BitAt;
    var after := Anded(cells, addr, data);
    forall i, k: nat | 0 <= i < |after|
      ensures BitAt(after[i], k) <==> BitAt(cells[i], k) && (addr <= i < addr + |data| ==> BitAt(data[i - addr], k))
    {
      if addr <= i < addr + |data| {
        AndBits(cells[i], data[i - addr], k);
      }
    }
  }

  lemma AndedSize(cells: seq<byte>, addr: nat, data: seq<byte>, lo: nat, hi: nat)
    requires lo <= addr && addr + |data| <= hi
    ensures |Anded(cells, addr, data)| == |cells| && SameOutside(cells, Anded(cells, addr, data), lo, hi)
  {
  }

  lemma AndedMore(cells: seq<byte>, addr: nat, data: seq<byte>, i: nat, j: nat)
    requires i <= j <= |data|
    ensures Anded(Anded(cells, addr, data[..i]), addr + i, data[i..j]) == Anded(cells, addr, data[..j])
  {
  }

  lemma AndedNothing(cells: seq<byte>, addr: nat, data: seq<byte>)
    ensures Anded(cells, addr, data[..0]) == cells
  {
  }

  lemma NothingProgrammed(overwrite: bool, cells: seq<byte>, addr: nat, data: seq<byte>)
    ensures Programmed(overwrite, cells, addr, data[..0]) == cells
  {
  }

  lemma ProgrammedOutside(overwrite: bool, cells: seq<byte>, addr: nat, data: seq<byte>, lo: nat, hi: nat)
    requires lo <= addr && addr + |data| <= hi
    ensures SameOutside(cells, Programmed(overwrite, cells, addr, data), lo, hi)
  {
  }

  lemma ProgrammedMore(overwrite: bool, cells: seq<byte>, addr: nat, data: seq<byte>, i: nat, j: nat)
    requires i <= j <= |data|
    ensures Programmed(overwrite, Programmed(overwrite, cells, addr, data[..i]), addr + i, data[i..j])
            == Programmed(overwrite, cells, addr, data[..j])
  {
  }

  function AndBytes(a: seq<byte>, b: seq<byte>): (r: seq<byte>)
    requires |a| == |b|
    ensures |r| == |a|
  {
    seq(|a|, i requires 0 <= i < |a| => And(a[i], b[i]))
  }

  /** Reading, combining and overwriting is the same as clearing bits. */
  lemma OverwriteIsAnd(cells: seq<byte>, addr: nat, data: seq<byte>)
    requires addr + |data| <= |cells|
    ensures Programmed(true, cells, addr, AndBytes(cells[addr..addr + |data|], data)) == Anded(cells, addr, data)
  {
  }

  /** Programming bytes with the value they already hold changes nothing. */
  lemma TailUnchanged(cells: seq<byte>, addr: nat, data: seq<byte>, len: nat)
    requires len <= |data| && addr + |data| <= |cells|
    requires data[len..] == cells[addr + len..addr + |data|]
    ensures Anded(cells, addr, data) == Anded(cells, addr, data[..len])
  {
    var a, b := Anded(cells, addr, data), Anded(cells, addr, data[..len]);
    forall i | 0 <= i < |cells| ensures a[i] == b[i] {
      if addr + len <= i < addr + |data| {
        assert data[i - addr] == data[len..][i - addr - len] == cells[addr + len..addr + |data|][i - addr - len];
        AndIdempotent(cells[i]);
      }
    }
  }

  class Chip {
    /** A PUYA chip overwrites on program. */
    const puya: bool
    var cells: seq<byte>
    ghost var log: seq<Op>
    /** How many operations the environment has made fail. */
    ghost var faults: nat

    ghost predicate Valid()
      reads this
    {
      |cells| % 0x1000 == 0 && |cells| < 0x8000_0000
    }

    constructor (puya: bool, cells: seq<byte>)
      requires |cells| % 0x1000 == 0 && |cells| < 0x8000_0000
      ensures Valid() && this.puya == puya && this.cells == cells && log == [] && faults == 0
    {
      this.puya, this.cells, log, faults := puya, cells, [], 0;
    }

    method EraseSector(sector: nat) returns (ok: bool)
      requires Valid()
      modifies this
      ensures Valid() && log == old(log) + [Erase(sector)] && faults >= old(faults)
      ensures ok <==> faults == old(faults) && sector * 0x1000 < |cells|
      ensures ok ==> cells == Erased(old(cells), sector)
      ensures SameOutside(old(cells), cells, sector * 0x1000, sector * 0x1000 + 0x1000)
    {
      log := log + [Erase(sector)];
      var fault: bool := *;
      if sector * 0x1000 >= |cells| {
        return false;
      }
      if fault {
        faults := faults + 1;
        var junk: seq<byte> := *;
        cells := Garbled(cells, junk, sector * 0x1000, sector * 0x1000 + 0x1000);
        return false;
      }
      cells := Erased(cells, sector);
      return true;
    }

    /** spi_flash_write: addresses and sizes must be multiples of four. */
    method Write(addr: nat, data: seq<byte>) returns (ok: bool)
      requires Valid() && addr % 4 == 0 && |data| % 4 == 0
      modifies this
      ensures Valid() && log == old(log) + [Program(addr, |data|)] && faults >= old(faults)
      ensures ok <==> faults == old(faults) && addr + |data| <= |cells|
      ensures ok ==> cells == Programmed(puya, old(cells), addr, data)
      ensures SameOutside(old(cells), cells, addr, addr + |data|)
    {
      log := log + [Program(addr, |data|)];
      var fault: bool := *;
      if addr + |data| > |cells| {
        return false;
      }
      if fault {
        faults := faults + 1;
        var junk: seq<byte> := *;
        cells := Garbled(cells, junk, addr, addr + |data|);
        return false;
      }
      cells := Programmed(puya, cells, addr, data);
      return true;
    }

    /** spi_flash_read. */
    method Read(addr: nat, size: nat) returns (ok: bool, data: seq<byte>)
      requires Valid()
      modifies this`faults
      ensures faults == old(faults) || (faults == old(faults) + 1 && !ok)
      ensures ok <==> faults == old(faults) && addr + size <= |cells|
      ensures ok ==> data == cells[addr..addr + size]
    {
      var fault: bool := *;
      if addr + size > |cells| {
        return false, [];
      }
      if fault {
        faults := faults + 1;
        return false, [];
      }
      return true, cells[addr..addr + size];
    }
  }
}
