// EspClass::flashWrite and its helpers: byte writes turned into aligned SPI programs.
module EspFlash {
  import opened Bytes
  import opened FlashChip

  function Aligned(value: nat): nat {
    (value + 3) / 4 * 4
  }

  /** The least multiple of four that is not smaller. */
  lemma AlignedExact(value: nat)
    ensures Aligned(value) % 4 == 0 && value <= Aligned(value) < value + 4
  {
  }

  function AlignBefore(value: nat): int {
    Aligned(value) - 4
  }

  /** One spi_flash_write of a longer write: bytes i..j of the data, within one page. */
  method OnePiece(chip: Chip, ghost cells: seq<byte>, ghost log: seq<Op>, offset: nat, data: seq<byte>, i: nat, j: nat)
    returns (ok: bool)
    requires chip.Valid() && i <= j <= |data| && |cells| == |chip.cells|
    requires (offset + i) % 4 == 0 && (j - i) % 4 == 0 && InOnePage(Program(offset + i, j - i))
    requires chip.cells == Programmed(chip.puya, cells, offset, data[..i])
    requires Issued(log, chip.log, offset, offset + i, true)
    modifies chip
    ensures chip.Valid() && chip.faults >= old(chip.faults) && |cells| == |chip.cells|
    ensures ok <==> chip.faults == old(chip.faults) && offset + j <= |chip.cells|
    ensures ok ==> chip.cells == Programmed(chip.puya, cells, offset, data[..j])
    ensures ok ==> Issued(log, chip.log, offset, offset + j, true)
    ensures SameOutside(cells, chip.cells, offset, offset + |data|)
    ensures Issued(log, chip.log, offset, offset + |data|, true)
  {
    hide Programmed, SameOutside, Issued, Tidy, InOnePage;
    ProgrammedSize(chip.puya, cells, offset, data[..i]);
    ok := chip.Write(offset + i, data[i..j]);
    ProgrammedMore(chip.puya, cells, offset, data, i, j);
    IssuedNext(log, old(chip.log), offset, offset + i, j - i, true);
    IssuedWider(log, chip.log, offset, offset + j, offset, offset + |data|, true);
    ProgrammedOutside(chip.puya, cells, offset, data[..i], offset, offset + |data|);
    WiderOutside(old(chip.cells), chip.cells, offset + i, offset + j, offset, offset + |data|);
    OutsideThen(cells, old(chip.cells), chip.cells, offset, offset + |data|);
  }

  /** The first page holds the bytes up to its end, or all of a shorter write. */
  lemma FirstPage(offset: nat, size: nat)
    requires offset % 4 == 0 && size % 4 == 0
    ensures var edge := 0x100 - offset % 0x100;
      && edge % 4 == 0 && (offset + edge) % 0x100 == 0 && InOnePage(Program(offset, edge))
      && (size < edge ==> InOnePage(Program(offset, size)))
  {
    var page, r := offset / 0x100, offset % 0x100;
    assert offset == page * 0x100 + r;
    assert r % 4 == 0;
  }

  /** A later piece starts on a page. */
  lemma LaterPage(address: nat, written: nat, total: nat, size: nat)
    requires address % 0x100 == 0 && written % 4 == 0 && total % 4 == 0 && written <= total
    ensures (address + 0x100) % 0x100 == 0 && (written + 0x100) % 4 == 0 && address % 4 == 0
    ensures (total - written) % 4 == 0
    ensures size <= 0x100 ==> InOnePage(Program(address, size))
  {
  }

  /** The generic writer that does not cross page boundaries. */
  method WritePageBreak(chip: Chip, offset: nat, data: seq<byte>) returns (ok: bool)
    requires chip.Valid() && offset % 4 == 0 && |data| % 4 == 0
    modifies chip
    ensures chip.Valid() && chip.faults >= old(chip.faults)
    ensures ok <==> chip.faults == old(chip.faults) && offset + |data| <= |chip.cells|
    ensures ok ==> chip.cells == Programmed(chip.puya, old(chip.cells), offset, data)
    ensures SameOutside(old(chip.cells), chip.cells, offset, offset + |data|)
    ensures Issued(old(chip.log), chip.log, offset, offset + |data|, true)
  {
    hide Programmed, SameOutside, Issued, InOnePage;
    var pageAligned := 0x100 - offset % 0x100;
    FirstPage(offset, |data|);
    NothingProgrammed(chip.puya, chip.cells, offset, data);
    IssuedNone(chip.log, offset, offset, true);
    assert data[..|data|] == data;
    if |data| < pageAligned {
      ok := OnePiece(chip, chip.cells, chip.log, offset, data, 0, |data|);
      return;
    }
    ok := OnePiece(chip, chip.cells, chip.log, offset, data, 0, pageAligned);
    if !ok {
      return false;
    }
    ok := LaterPages(chip, old(chip.cells), old(chip.log), offset, data, pageAligned);
  }

  /** The loop over whole pages, and the remaining data. */
  method LaterPages(chip: Chip, ghost cells: seq<byte>, ghost log: seq<Op>, offset: nat, data: seq<byte>, start: nat)
    returns (ok: bool)
    requires chip.Valid() && start <= |data| && start % 4 == 0 && |data| % 4 == 0 && (offset + start) % 0x100 == 0
    requires |cells| == |chip.cells| && offset + start <= |chip.cells|
    requires chip.cells == Programmed(chip.puya, cells, offset, data[..start])
    requires Issued(log, chip.log, offset, offset + start, true)
    modifies chip
    ensures chip.Valid() && chip.faults >= old(chip.faults)
    ensures ok <==> chip.faults == old(chip.faults) && offset + |data| <= |chip.cells|
    ensures ok ==> chip.cells == Programmed(chip.puya, cells, offset, data)
    ensures SameOutside(cells, chip.cells, offset, offset + |data|)
    ensures Issued(log, chip.log, offset, offset + |data|, true)
  {
    hide Programmed, SameOutside, Issued, InOnePage;
    var pageAligned := start;
    var lastPage := (|data| - pageAligned) / 0x100;
    var page := 0;
    while page < lastPage
      invariant 0 <= page <= lastPage
      invariant (lastPage - page) * 0x100 <= |data| - pageAligned < (lastPage - page) * 0x100 + 0x100
      invariant pageAligned % 4 == 0 && (offset + pageAligned) % 0x100 == 0
      invariant chip.Valid() && chip.faults == old(chip.faults) && |chip.cells| == |cells|
      invariant chip.cells == Programmed(chip.puya, cells, offset, data[..pageAligned])
      invariant Issued(log, chip.log, offset, offset + pageAligned, true)
      invariant offset + pageAligned <= |chip.cells|
    {
      LaterPage(offset + pageAligned, pageAligned, |data|, 0x100);
      ok := OnePiece(chip, cells, log, offset, data, pageAligned, pageAligned + 0x100);
      if !ok {
        return false;
      }
      pageAligned := pageAligned + 0x100;
      page := page + 1;
    }
    LaterPage(offset + pageAligned, pageAligned, |data|, |data| - pageAligned);
    assert data[..|data|] == data;
    ok := OnePiece(chip, cells, log, offset, data, pageAligned, |data|);
  }

  /** The writer for PUYA chips: read, combine in memory, write back. */
  method WritePuya(chip: Chip, offset: nat, data: seq<byte>) returns (ok: bool)
    requires chip.Valid() && chip.puya && offset % 4 == 0
    modifies chip
    ensures chip.Valid() && chip.faults >= old(chip.faults)
    ensures ok <==> chip.faults == old(chip.faults) && |data| % 4 == 0 && (|data| == 0 || offset + |data| <= |chip.cells|)
    ensures ok ==> chip.cells == Anded(old(chip.cells), offset, data)
    ensures SameOutside(old(chip.cells), chip.cells, offset, offset + |data|)
    ensures Issued(old(chip.log), chip.log, offset, offset + |data|, false)
  {
    SameEverywhere(chip.cells, offset, offset + |data|);
    IssuedNone(chip.log, offset, offset + |data|, false);
    if |data| % 4 != 0 {
      return false;
    }
    var outOfMemory: bool := *;
    if outOfMemory {
      chip.faults := chip.faults + 1;
      return false;
    }
    hide Anded, Programmed, SameOutside, Issued, Tidy;
    var bytesLeft, pos := |data|, offset;
    AndedNothing(chip.cells, offset, data);
    IssuedNone(chip.log, offset, offset, false);
    assert data[..|data|] == data;
    AndedSize(chip.cells, offset, data, offset, offset + |data|);
    while bytesLeft > 0
      invariant 0 <= bytesLeft <= |data| && pos + bytesLeft == offset + |data|
      invariant bytesLeft % 4 == 0 && pos % 4 == 0
      invariant chip.Valid() && chip.faults == old(chip.faults) && |chip.cells| == |old(chip.cells)|
      invariant pos == offset || pos <= |chip.cells|
      invariant chip.cells == Anded(old(chip.cells), offset, data[..pos - offset])
      invariant Issued(old(chip.log), chip.log, offset, pos, false)
    {
      var bytesNow := Min(bytesLeft, 0x100);
      PuyaStep(bytesLeft, pos, bytesNow);
      ok := PuyaPiece(chip, old(chip.cells), old(chip.log), offset, data, pos - offset, pos - offset + bytesNow);
      IssuedWider(old(chip.log), chip.log, offset, pos + bytesNow, offset, offset + |data|, false);
      WiderOutside(old(chip.cells), chip.cells, offset, pos + bytesNow, offset, offset + |data|);
      if !ok {
        return false;
      }
      bytesLeft := bytesLeft - bytesNow;
      pos := pos + bytesNow;
    }
    ok := true;
  }

  lemma PuyaStep(left: nat, pos: nat, now: nat)
    requires left % 4 == 0 && pos % 4 == 0 && (now == left || now == 0x100) && now <= left
    ensures now % 4 == 0 && (left - now) % 4 == 0 && (pos + now) % 4 == 0
  {
  }

  method AndInto(buffer: seq<byte>, data: seq<byte>) returns (buf: seq<byte>)
    requires |buffer| == |data|
    ensures buf == AndBytes(buffer, data)
  {
    buf := buffer;
    var k := 0;
    while k < |data|
      invariant 0 <= k <= |data| && |buf| == |data|
      invariant forall m :: 0 <= m < k ==> buf[m] == And(buffer[m], data[m])
      invariant forall m :: k <= m < |data| ==> buf[m] == buffer[m]
    {
      buf := buf[k := And(buf[k], data[k])];
      k := k + 1;
    }
  }

  method PuyaPiece(chip: Chip, ghost cells: seq<byte>, ghost log: seq<Op>, offset: nat, data: seq<byte>, i: nat, j: nat)
    returns (ok: bool)
    requires chip.Valid() && chip.puya && (offset + i) % 4 == 0 && (j - i) % 4 == 0 && i < j <= |data|
    requires |cells| == |chip.cells| && chip.cells == Anded(cells, offset, data[..i])
    requires Issued(log, chip.log, offset, offset + i, false)
    modifies chip
    ensures chip.Valid() && chip.faults >= old(chip.faults)
    ensures ok <==> chip.faults == old(chip.faults) && offset + j <= |chip.cells|
    ensures ok ==> chip.cells == Anded(cells, offset, data[..j])
    ensures SameOutside(cells, chip.cells, offset, offset + j)
    ensures Issued(log, chip.log, offset, offset + j, false)
  {
    hide Anded, AndBytes, Programmed, SameOutside, Issued, Tidy;
    var pos, n := offset + i, j - i;
    AndedSize(cells, offset, data[..i], offset, offset + j);
    IssuedWider(log, chip.log, offset, pos, offset, offset + j, false);
    var buf: seq<byte>;
    ok, buf := chip.Read(pos, n);
    if !ok {
      return false;
    }
    ghost var piece := data[i..j];
    buf := AndInto(buf, data[i..j]);
    OverwriteIsAnd(chip.cells, pos, piece);
    AndedMore(cells, offset, data, i, j);
    IssuedNext(log, chip.log, offset, pos, n, false);
    ok := chip.Write(pos, buf);
    WiderOutside(old(chip.cells), chip.cells, pos, pos + n, offset, offset + j);
    OutsideThen(cells, old(chip.cells), chip.cells, offset, offset + j);
  }

  /** flashWrite for word data: the chip's vendor picks the writer. */
  method FlashWriteWords(chip: Chip, address: nat, data: seq<byte>) returns (ok: bool)
    requires chip.Valid() && address % 4 == 0 && |data| % 4 == 0 && |data| > 0
    modifies chip
    ensures chip.Valid() && chip.faults >= old(chip.faults)
    ensures ok <==> chip.faults == old(chip.faults) && address + |data| <= |chip.cells|
    ensures ok ==> chip.cells == Anded(old(chip.cells), address, data)
    ensures SameOutside(old(chip.cells), chip.cells, address, address + |data|)
    ensures Issued(old(chip.log), chip.log, address, address + |data|, !chip.puya)
  {
    if chip.puya {
      ok := WritePuya(chip, address, data);
    } else {
      ok := WritePageBreak(chip, address, data);
    }
  }

  /** The word that the head of an unaligned write puts back: the old word with the first
      data bytes merged in, by copying, or by combining on PUYA chips. */
  function HeadWord(puya: bool, word: seq<byte>, offset: nat, data: seq<byte>): (r: seq<byte>)
    requires |word| == 4 && offset + |data| <= 4
    ensures |r| == 4
  {
    seq(4, k requires 0 <= k < 4 =>
      if !(offset <= k < offset + |data|) then word[k]
      else if puya then And(word[k], data[k - offset]) else data[k - offset])
  }

  lemma HeadIsAnd(puya: bool, cells: seq<byte>, address: nat, data: seq<byte>)
    requires address % 4 + |data| <= 4 && address - address % 4 + 4 <= |cells|
    ensures var before := address - address % 4;
      Programmed(puya, cells, before, HeadWord(puya, cells[before..before + 4], address % 4, data))
      == Anded(cells, address, data)
  {
    hide And;
    var before := address - address % 4;
    var word := HeadWord(puya, cells[before..before + 4], address % 4, data);
    var a, b := Programmed(puya, cells, before, word), Anded(cells, address, data);
    forall i | 0 <= i < |cells| ensures a[i] == b[i] {
      AndIdempotent(cells[i]);
      if before <= i < before + 4 {
        assert word[i - before] ==
          if !(address <= i < address + |data|) then cells[i]
          else if puya then And(cells[i], data[i - address]) else data[i - address];
      }
    }
  }

  /** The bytes ahead of the first aligned address. */
  method WriteHead(chip: Chip, address: nat, data: seq<byte>) returns (ok: bool)
    requires chip.Valid() && address % 4 != 0 && address % 4 + |data| <= 4
    modifies chip
    ensures chip.Valid() && chip.faults >= old(chip.faults)
    ensures ok <==> chip.faults == old(chip.faults) && address - address % 4 + 4 <= |chip.cells|
    ensures ok ==> chip.cells == Anded(old(chip.cells), address, data)
    ensures SameOutside(old(chip.cells), chip.cells, address - address % 4, address - address % 4 + 4)
    ensures Issued(old(chip.log), chip.log, address - address % 4, address - address % 4 + 4, true)
  {
    hide Programmed, Issued, SameOutside, HeadWord;
    var before := AlignBefore(address);
    var offset := address - before;
    AlignBeforeIs(address);
    var buf: seq<byte>;
    ok, buf := chip.Read(before, 4);
    IssuedOne(chip.log, before, 4, true);
    SameEverywhere(chip.cells, before, before + 4);
    IssuedNone(chip.log, before, before + 4, true);
    if !ok {
      return false;
    }
    HeadIsAnd(chip.puya, chip.cells, address, data);
    buf := MergeHead(chip.puya, buf, offset, data);
    ok := chip.Write(before, buf);
  }

  lemma AlignBeforeIs(address: nat)
    requires address % 4 != 0
    ensures AlignBefore(address) == address - address % 4 && AlignBefore(address) % 4 == 0
    ensures InOnePage(Program(AlignBefore(address), 4))
  {
    var w, r := address / 4, address % 4;
    var page, i := w / 64, w % 64;
    DivUnique(4 * w + r + 3, 4, w + 1, r - 1);
    DivUnique(4 * w, 4, w, 0);
    DivUnique(4 * w, 0x100, page, 4 * i);
    DivUnique(4 * w + 3, 0x100, page, 4 * i + 3);
  }

  method MergeHead(puya: bool, word: seq<byte>, offset: nat, data: seq<byte>) returns (buf: seq<byte>)
    requires |word| == 4 && offset + |data| <= 4
    ensures buf == HeadWord(puya, word, offset, data)
  {
    buf := word;
    var i := 0;
    while i < |data|
      invariant 0 <= i <= |data| && buf == HeadWord(puya, word, offset, data[..i])
    {
      buf := buf[offset + i := if puya then And(buf[offset + i], data[i]) else data[i]];
      i := i + 1;
    }
    assert data[..i] == data;
  }

  /** One round of the loop over aligned addresses: at most a page of data, completed to
      whole words with what the flash already holds. */
  method WriteChunk(chip: Chip, address: nat, data: seq<byte>) returns (ok: bool)
    requires chip.Valid() && address % 4 == 0 && 0 < |data| <= 0x100
    modifies chip
    ensures chip.Valid() && chip.faults >= old(chip.faults)
    ensures ok <==> chip.faults == old(chip.faults) && address + Aligned(|data|) <= |chip.cells|
    ensures ok ==> chip.cells == Anded(old(chip.cells), address, data)
    ensures SameOutside(old(chip.cells), chip.cells, address, address + Aligned(|data|))
    ensures Issued(old(chip.log), chip.log, address, address + Aligned(|data|), !chip.puya)
  {
    var wlen := Aligned(|data|);
    var tail: seq<byte> := [];
    IssuedOne(chip.log, address, 0, true);
    if wlen != |data| {
      var partial := wlen - 4;
      var word: seq<byte>;
      ok, word := chip.Read(address + partial, 4);
      if !ok {
        return false;
      }
      tail := word[|data| - partial..];
      assert tail == chip.cells[address + |data|..address + wlen];
    }
    var buf := data + tail;
    if address + wlen <= |chip.cells| {
      assert buf[|data|..] == tail && buf[..|data|] == data;
      TailUnchanged(chip.cells, address, buf, |data|);
    }
    ok := FlashWriteWords(chip, address, buf);
  }

  /** The word-aligned hull of [address, address + size). */
  function Down(address: nat): nat {
    address - address % 4
  }

  function Up(address: nat, size: nat): nat {
    Aligned(address + size)
  }

  lemma HullBounds(address: nat, size: nat)
    ensures Down(address) <= address <= address + size <= Up(address, size) && Up(address, size) % 4 == 0
    ensures address % 4 != 0 ==> Down(address) + 4 <= Up(address, size)
  {
  }

  lemma ChunkBounds(address: nat, len: nat, hi: nat)
    requires address % 4 == 0 && hi % 4 == 0 && address + len <= hi
    ensures len <= Aligned(len) && address + Aligned(len) <= hi
    ensures len % 4 == 0 ==> Aligned(len) == len
  {
    assert (address + Aligned(len)) % 4 == 0 && address + Aligned(len) < address + len + 4;
  }

  lemma AlignedSum(address: nat, len: nat)
    requires address % 4 == 0
    ensures Down(address) == address && Up(address, len) == address + Aligned(len)
  {
  }

  lemma WordsFit(address: nat, len: nat, chipSize: nat)
    requires address % 4 == 0 && chipSize % 0x1000 == 0
    ensures address + Aligned(len) <= chipSize <==> address + len <= chipSize
  {
    if address + len <= chipSize {
      assert chipSize % 4 == 0;
      ChunkBounds(address, len, chipSize);
    }
  }

  lemma HeadFits(address: nat, len: nat, chipSize: nat)
    requires address % 4 != 0 && 0 < len && address % 4 + len <= 4 && chipSize % 0x1000 == 0
    ensures address - address % 4 + 4 <= chipSize <==> address + len <= chipSize
  {
    var w, r, c := address / 4, address % 4, chipSize / 0x1000;
    WordFits(w, r, len, 0x400 * c);
  }

  lemma Fours(a: nat)
    requires a % 0x1000 == 0
    ensures a % 4 == 0
  {
  }

  lemma WordFits(w: nat, r: nat, len: nat, c: nat)
    requires 0 < r && 0 < len && r + len <= 4
    ensures 4 * w + 4 <= 4 * c <==> 4 * w + r + len <= 4 * c
  {
  }

  lemma HeadEnds(address: nat, size: nat)
    requires address % 4 != 0
    ensures var wlen := Min(4 - (address - AlignBefore(address)), size);
      && 0 <= wlen <= size && address % 4 + wlen <= 4
      && (wlen < size ==> (address + wlen) % 4 == 0 && address + wlen == Down(address) + 4)
  {
  }

  /** The head of an unaligned write, or nothing at an aligned address. */
  method StartUnaligned(chip: Chip, address: nat, data: seq<byte>) returns (ok: bool, wlen: nat)
    requires chip.Valid()
    modifies chip
    ensures chip.Valid() && chip.faults >= old(chip.faults)
    ensures wlen <= |data| && (wlen < |data| ==> (address + wlen) % 4 == 0)
    ensures |data| > 0 ==>
      (ok <==> chip.faults == old(chip.faults) && (wlen == 0 || address + wlen <= |chip.cells|))
    ensures ok ==> chip.faults == old(chip.faults) && chip.cells == Anded(old(chip.cells), address, data[..wlen])
    ensures SameOutside(old(chip.cells), chip.cells, Down(address), Up(address, |data|))
    ensures Issued(old(chip.log), chip.log, Down(address), Up(address, |data|), true)
    ensures wlen < |data| ==> Issued(old(chip.log), chip.log, Down(address), address + wlen, true)
  {
    HullBounds(address, |data|);
    if address % 4 == 0 {
      assert Anded(chip.cells, address, data[..0]) == chip.cells;
      IssuedNone(chip.log, address, address, true);
      IssuedNone(chip.log, address, Up(address, |data|), true);
      return true, 0;
    }
    wlen := Min(4 - (address - AlignBefore(address)), |data|);
    HeadEnds(address, |data|);
    if wlen > 0 {
      HeadFits(address, wlen, |chip.cells|);
    }
    ok := WriteHead(chip, address, data[..wlen]);
  }

  /** One round of the loop: bytes i..i + len of a longer write. */
  method WriteNext(chip: Chip, ghost cells: seq<byte>, ghost log: seq<Op>, ghost lo: nat, ghost hi: nat,
                   start: nat, data: seq<byte>, i: nat, len: nat)
    returns (ok: bool)
    requires chip.Valid() && 0 < len <= 0x100 && i + len <= |data|
    requires (start + i) % 4 == 0 && hi % 4 == 0 && lo <= start && start + i + len <= hi && |cells| == |chip.cells|
    requires chip.cells == Anded(cells, start, data[..i])
    requires Issued(log, chip.log, lo, start + i, !chip.puya)
    modifies chip
    ensures chip.Valid() && chip.faults >= old(chip.faults)
    ensures ok <==> chip.faults == old(chip.faults) && start + i + len <= |chip.cells|
    ensures ok ==> chip.cells == Anded(cells, start, data[..i + len])
    ensures SameOutside(cells, chip.cells, lo, hi)
    ensures Issued(log, chip.log, lo, start + i + Aligned(len), !chip.puya)
    ensures start + i + Aligned(len) <= hi
  {
    ChunkBounds(start + i, len, hi);
    WordsFit(start + i, len, |chip.cells|);
    ok := WriteChunk(chip, start + i, data[i..i + len]);
    IssuedThen(log, old(chip.log), chip.log, lo, start + i, start + i + Aligned(len), !chip.puya);
    ProgrammedMore(false, cells, start, data, i, i + len);
  }

  lemma NextIsAligned(address: nat)
    requires address % 4 == 0
    ensures (address + 0x100) % 4 == 0 && Aligned(0x100) == 0x100
  {
  }

  method FlashWriteUnalignedMemory(chip: Chip, startAddress: nat, allData: seq<byte>) returns (written: nat)
    requires chip.Valid()
    modifies chip
    ensures chip.Valid() && chip.faults >= old(chip.faults) && written <= |allData|
    ensures |allData| > 0 ==>
      (written == |allData| <==> chip.faults == old(chip.faults) && startAddress + |allData| <= |chip.cells|)
    ensures written == |allData| > 0 ==> chip.cells == Anded(old(chip.cells), startAddress, allData)
    ensures SameOutside(old(chip.cells), chip.cells, Down(startAddress), Up(startAddress, |allData|))
    ensures Issued(old(chip.log), chip.log, Down(startAddress), Up(startAddress, |allData|), !chip.puya)
  {
    HullBounds(startAddress, |allData|);
    var ok, wlen := StartUnaligned(chip, startAddress, allData);
    if !ok {
      return 0;
    }
    written := wlen;
    if wlen < |allData| {
      written := WriteRest(chip, old(chip.cells), old(chip.log), Down(startAddress), Up(startAddress, |allData|),
                           startAddress, allData, wlen);
    } else {
      assert allData[..wlen] == allData;
    }
  }

  /** The loop over the aligned remainder of the data. */
  method WriteRest(chip: Chip, ghost cells: seq<byte>, ghost log: seq<Op>, ghost lo: nat, ghost hi: nat,
                   start: nat, data: seq<byte>, done: nat)
    returns (written: nat)
    requires chip.Valid() && done < |data| && (start + done) % 4 == 0
    requires hi % 4 == 0 && lo <= start && start + |data| <= hi && |cells| == |chip.cells|
    requires done == 0 || start + done <= |chip.cells|
    requires chip.cells == Anded(cells, start, data[..done])
    requires Issued(log, chip.log, lo, start + done, !chip.puya)
    modifies chip
    ensures chip.Valid() && chip.faults >= old(chip.faults) && written <= |data|
    ensures written == |data| <==> chip.faults == old(chip.faults) && start + |data| <= |chip.cells|
    ensures written == |data| ==> chip.cells == Anded(cells, start, data)
    ensures SameOutside(cells, chip.cells, lo, hi)
    ensures Issued(log, chip.log, lo, hi, !chip.puya)
  {
    var size := |data| - done;
    written := done;
    ghost var edge := start + done;
    while size > 0
      invariant 0 <= size && written + size == |data|
      invariant size > 0 ==> (start + written) % 4 == 0 && edge == start + written
      invariant lo <= edge <= hi
      invariant chip.Valid() && chip.faults == old(chip.faults) && |cells| == |chip.cells|
      invariant written > 0 ==> start + written <= |chip.cells|
      invariant chip.cells == Anded(cells, start, data[..written])
      invariant Issued(log, chip.log, lo, edge, !chip.puya)
    {
      var len := Min(size, 0x100);
      NextIsAligned(start + written);
      var ok := WriteNext(chip, cells, log, lo, hi, start, data, written, len);
      edge := start + written + Aligned(len);
      if !ok {
        return;
      }
      written, size := written + len, size - len;
    }
    assert data[..written] == data;
  }

  /** flashWrite for byte data, which may be null. It succeeds exactly when it has something
      to write, it fits and no chip operation fails; then the target range holds old AND
      data, on every kind of chip and for every alignment, and nothing else changed. */
  method FlashWrite(chip: Chip, address: nat, data: Option<seq<byte>>, pointerAligned: bool) returns (ok: bool)
    requires chip.Valid()
    modifies chip
    ensures chip.Valid() && chip.faults >= old(chip.faults)
    ensures ok <==>
      data.Some? && |data.value| > 0 && chip.faults == old(chip.faults) && address + |data.value| <= |chip.cells|
    ensures ok ==> chip.cells == Anded(old(chip.cells), address, data.value)
    ensures ok ==> BitsCleared(old(chip.cells), chip.cells, address, data.value)
    ensures var size := if data.Some? then |data.value| else 0;
      && SameOutside(old(chip.cells), chip.cells, Down(address), Up(address, size))
      && Issued(old(chip.log), chip.log, Down(address), Up(address, size), !chip.puya)
    ensures data.None? || |data.value| == 0 ==> chip.log == old(chip.log) && chip.cells == old(chip.cells)
  {
    hide BitsCleared, Anded;
    if data.Some? && |data.value| > 0 {
      var size := |data.value|;
      if address + size <= |chip.cells| {
        AndedBits(chip.cells, address, data.value);
      }
      if address % 4 != 0 || !pointerAligned || size % 4 != 0 {
        var written := FlashWriteUnalignedMemory(chip, address, data.value);
        return written == size;
      }
      ok := FlashWriteWords(chip, address, data.value);
      return;
    }
    return false;
  }

  /** The whole words of a read into a buffer that is not word-aligned, 64 bytes at a time
      through one that is. */
  method ReadThroughBuffer(chip: Chip, address: nat, size: nat) returns (ok: bool, data: seq<byte>)
    requires chip.Valid() && size % 4 == 0
    modifies chip`faults
    ensures chip.faults >= old(chip.faults)
    ensures ok ==> (size > 0 ==> address + size <= |chip.cells|) && |data| == size
    ensures ok && size > 0 ==> data == chip.cells[address..address + size]
    ensures ok <==> chip.faults == old(chip.faults) && (size > 0 ==> address + size <= |chip.cells|)
  {
    var sizeLeft := size;
    data := [];
    while sizeLeft > 0
      invariant 0 <= sizeLeft <= size && |data| == size - sizeLeft && chip.faults == old(chip.faults)
      invariant data != [] ==> address + |data| <= |chip.cells| && data == chip.cells[address..address + |data|]
    {
      var willCopy := Min(sizeLeft, 64);
      var read, buf := chip.Read(address + |data|, willCopy);
      if !read {
        return false, data;
      }
      data := data + buf;
      sizeLeft := sizeLeft - willCopy;
    }
    ok := true;
  }

  /** flashRead into a byte buffer: whole words first, then the word with the tail. */
  method FlashRead(chip: Chip, address: nat, size: nat, pointerAligned: bool) returns (ok: bool, data: seq<byte>)
    requires chip.Valid()
    modifies chip`faults
    ensures chip.faults >= old(chip.faults)
    ensures ok <==>
      chip.faults == old(chip.faults) && (address + Aligned(size) <= |chip.cells| || (size == 0 && !pointerAligned))
    ensures ok ==> if size == 0 then data == [] else data == chip.cells[address..address + size]
  {
    var sizeAligned := size / 4 * 4;
    WholeWords(size);
    if !pointerAligned {
      ok, data := ReadThroughBuffer(chip, address, sizeAligned);
    } else {
      ok, data := chip.Read(address, sizeAligned);
    }
    if !ok {
      return;
    }
    if sizeAligned < size {
      var word: seq<byte>;
      ok, word := chip.Read(address + sizeAligned, 4);
      if ok {
        data := data + word[..size - sizeAligned];
        ReadInTwo(chip.cells, address, sizeAligned, size - sizeAligned);
      }
    }
  }

  lemma ReadInTwo(cells: seq<byte>, a: nat, n: nat, k: nat)
    requires k <= 4 && a + n + 4 <= |cells|
    ensures cells[a..a + n] + cells[a + n..a + n + 4][..k] == cells[a..a + n + k]
  {
    var x, y := cells[a..a + n] + cells[a + n..a + n + 4][..k], cells[a..a + n + k];
    assert |x| == |y|;
    forall i | 0 <= i < n + k ensures x[i] == y[i] {
    }
  }

  lemma WholeWords(size: nat)
    ensures var whole := size / 4 * 4;
      whole <= size < whole + 4 && Aligned(size) == if whole == size then size else whole + 4
  {
  }
}
