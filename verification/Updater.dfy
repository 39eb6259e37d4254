// UpdaterClass: begin, write, end and the buffer flush that carries an image into flash.
module Updater {
  import opened Bytes
  import opened FlashChip
  import opened UpdaterSpec
  import EspFlash
  import EC = EbootCommand

  /** The erase at the start of each sector. `inside`: the sector is part of the window. */
  method EraseAhead(chip: Chip, current: nat, ghost logStart: nat, ghost lo: nat, ghost hi: nat, ghost inside: bool)
    returns (ok: bool)
    requires chip.Valid() && logStart <= |chip.log|
    requires inside ==> Disciplined(chip.log[logStart..], lo, hi) && lo <= current && SectorEnd(current) <= hi
    requires inside && current % 0x1000 != 0 ==>
      BlankFrom(chip.log[logStart..], current, SectorEnd(current)) && AllOnes(chip.cells, current, SectorEnd(current))
    modifies chip
    ensures chip.Valid() && chip.faults >= old(chip.faults)
    ensures current % 0x1000 == 0 ==> (ok <==> chip.faults == old(chip.faults) && current < |chip.cells|)
    ensures current % 0x1000 != 0 ==> ok && chip.faults == old(chip.faults)
    ensures chip.log == old(chip.log) + (if current % 0x1000 == 0 then [Erase(current / 0x1000)] else [])
    ensures SameOutside(old(chip.cells), chip.cells, current, SectorEnd(current))
    ensures inside ==> Disciplined(chip.log[logStart..], lo, hi)
    ensures inside && ok ==>
      BlankFrom(chip.log[logStart..], current, SectorEnd(current)) && AllOnes(chip.cells, current, SectorEnd(current))
  {
    SectorFacts(current);
    ok := true;
    if current % 0x1000 == 0 {
      ok := chip.EraseSector(current / 0x1000);
      if inside {
        DisciplinedErase(old(chip.log)[logStart..], current / 0x1000, lo, hi);
        assert chip.log[logStart..] == old(chip.log)[logStart..] + [Erase(current / 0x1000)];
      }
      if ok {
        ErasedIsOnes(old(chip.cells), current / 0x1000);
      }
    }
  }

  /** Programming a chunk into the blank rest of a sector. */
  method ProgramAhead(chip: Chip, current: nat, data: seq<byte>, ghost logStart: nat, ghost lo: nat, ghost hi: nat)
    returns (ok: bool)
    requires chip.Valid() && logStart <= |chip.log| && |data| > 0
    requires Disciplined(chip.log[logStart..], lo, hi)
    requires lo <= current && SectorEnd(current) <= hi && current % 4 == 0 && current + |data| <= SectorEnd(current)
    requires BlankFrom(chip.log[logStart..], current, SectorEnd(current))
    requires AllOnes(chip.cells, current, SectorEnd(current))
    modifies chip
    ensures chip.Valid() && chip.faults >= old(chip.faults) && old(chip.log) <= chip.log
    ensures ok <==> chip.faults == old(chip.faults)
    ensures Disciplined(chip.log[logStart..], lo, hi)
    ensures SameOutside(old(chip.cells), chip.cells, current, SectorEnd(current))
    ensures ok ==>
      && current + |data| <= |chip.cells| && chip.cells[current..current + |data|] == data
      && BlankFrom(chip.log[logStart..], EspFlash.Aligned(current + |data|), SectorEnd(current))
      && AllOnes(chip.cells, current + |data|, SectorEnd(current))
  {
    hide Disciplined, BlankFrom, AllOnes, SameOutside, Issued, Programmed, EspFlash.Aligned;
    ghost var to, end := EspFlash.Aligned(current + |data|), SectorEnd(current);
    ProgramFits(current, |data|);
    ok := EspFlash.FlashWrite(chip, current, Some(data), true);
    DisciplinedIssue(old(chip.log), chip.log, logStart, current, to, end, lo, hi, !chip.puya);
    OnesOutside(old(chip.cells), chip.cells, current, current + |data|, end);
    AndedIntoOnes(old(chip.cells), current, data);
    ProgrammedOutside(false, old(chip.cells), current, data, current, current + |data|);
    WiderOutside(old(chip.cells), chip.cells, current, to, current, end);
    AllOnesFits(old(chip.cells), current, end);
    IssuedWider(old(chip.log), chip.log, current, to, current, to, !chip.puya);
  }

  lemma ProgramFits(current: nat, len: nat)
    requires current % 4 == 0 && current + len <= SectorEnd(current)
    ensures EspFlash.Down(current) == current && EspFlash.Up(current, len) == EspFlash.Aligned(current + len)
    ensures current + len <= EspFlash.Aligned(current + len) <= SectorEnd(current)
  {
    SectorFacts(current);
    EspFlash.Fours(SectorEnd(current));
    hide SectorEnd, EspFlash.Aligned;
    EspFlash.ChunkBounds(current, len, SectorEnd(current));
    EspFlash.AlignedSum(current, len);
  }

  /** getFlashChipMode: byte 2 of the running image's header, decoded; FM_UNKNOWN when it cannot
      be read. */
  method GetFlashChipMode(chip: Chip) returns (mode: byte)
    requires chip.Valid()
    modifies chip`faults
    ensures chip.faults == old(chip.faults) || (chip.faults == old(chip.faults) + 1 && mode == 0xff)
    ensures |chip.cells| > 2 && chip.faults == old(chip.faults) ==> mode == Mode(chip.cells[2])
  {
    mode := 0xff;
    var ok, bytes := chip.Read(0, 4);
    if ok {
      mode := Mode(bytes[2]);
    }
  }

  /** Make the header's mode byte match the chip, in the first buffer of an image. */
  method PatchMode(chip: Chip, buffer: array<byte>, first: bool, command: int)
    returns (patched: bool, bufferMode: byte, flashMode: byte)
    requires chip.Valid() && 3 <= buffer.Length
    modifies chip`faults, buffer
    ensures var asks := first && old(buffer[0]) != 0x1f && command == U_FLASH;
      && (patched <==> asks && Mode(old(buffer[2])) != flashMode)
      && (!asks ==> chip.faults == old(chip.faults))
      && (asks && |chip.cells| > 2 && chip.faults == old(chip.faults) ==> flashMode == Mode(chip.cells[2]))
    ensures chip.faults == old(chip.faults) || (chip.faults == old(chip.faults) + 1 && flashMode == 0xff)
    ensures patched ==> bufferMode == Mode(old(buffer[2]))
    ensures buffer[..] == if patched then old(buffer[..])[2 := flashMode] else old(buffer[..])
  {
    patched, bufferMode, flashMode := false, 0, 0;
    if first && buffer[0] != 0x1f && command == U_FLASH {
      flashMode := GetFlashChipMode(chip);
      bufferMode := Mode(buffer[2]);
      if bufferMode != flashMode {
        buffer[2] := flashMode;
        patched := true;
      }
    }
  }

  /** The chip's part of _writeBuffer: erase at a sector's start, patch, program, restore. */
  method FlushToChip(chip: Chip, buffer: array<byte>, bufferLen: nat, currentAddress: nat, startAddress: nat,
                     command: int, ghost logStart: nat, ghost hi: nat)
    returns (erased: bool, written: bool, flashMode: byte)
    requires chip.Valid() && logStart <= |chip.log| && bufferLen <= buffer.Length && 3 <= buffer.Length
    requires startAddress % 0x1000 == 0
    requires startAddress <= currentAddress && (bufferLen == 0 ==> startAddress < currentAddress)
    requires bufferLen > 0 ==>
      && Disciplined(chip.log[logStart..], startAddress, hi)
      && currentAddress + bufferLen <= SectorEnd(currentAddress) <= hi && currentAddress % 4 == 0
      && (currentAddress % 0x1000 != 0 ==>
            && BlankFrom(chip.log[logStart..], currentAddress, SectorEnd(currentAddress))
            && AllOnes(chip.cells, currentAddress, SectorEnd(currentAddress)))
    modifies chip, buffer
    ensures chip.Valid() && chip.faults >= old(chip.faults) && old(chip.log) <= chip.log
    ensures written ==> erased
    ensures written ==> bufferLen > 0 && currentAddress < |chip.cells|
    ensures bufferLen > 0 && chip.faults == old(chip.faults) && currentAddress < |chip.cells| ==> written
    // a failing read of the chip's mode is not noticed; the mode is then unknown
    ensures var asks := currentAddress == startAddress && old(buffer[0]) != 0x1f && command == U_FLASH;
      written ==>
        && (chip.faults > old(chip.faults) ==> asks && flashMode == 0xff && chip.faults == old(chip.faults) + 1)
        && (asks ==>
              ModeFor(startAddress, if startAddress > 0 && |old(chip.cells)| > 2 then old(chip.cells)[2] else 0,
                      chip.faults > old(chip.faults), flashMode))
    ensures bufferLen > 0 ==>
      && Disciplined(chip.log[logStart..], startAddress, hi)
      && SameOutside(old(chip.cells), chip.cells, currentAddress, SectorEnd(currentAddress))
    ensures bufferLen == 0 ==>
      chip.log == old(chip.log) + EraseAt(currentAddress)
    ensures written ==>
      var chunk, first := old(buffer[..bufferLen]), currentAddress == startAddress;
      && currentAddress + bufferLen <= |chip.cells|
      && chip.cells[currentAddress..currentAddress + bufferLen] == StagedChunk(first, command, flashMode, chunk)
      && buffer[..bufferLen] == HashedChunk(first, command, flashMode, chunk)
      && BlankFrom(chip.log[logStart..], EspFlash.Aligned(currentAddress + bufferLen), SectorEnd(currentAddress))
      && AllOnes(chip.cells, currentAddress + bufferLen, SectorEnd(currentAddress))
  {
    ghost var bytes := buffer[..];
    SectorFacts(currentAddress);
    erased := EraseAhead(chip, currentAddress, logStart, startAddress, hi, bufferLen > 0);
    ghost var cells := chip.cells;
    var patched, bufferMode;
    patched, bufferMode, flashMode := PatchMode(chip, buffer, currentAddress == startAddress, command);
    if bufferLen > 0 {
      PatchedBuffer(command, flashMode, bytes, bufferLen);
      assert bytes[..bufferLen] == old(buffer[..bufferLen]);
    }
    written := false;
    if erased {
      if bufferLen > 0 {
        assert buffer[..bufferLen] == buffer[..][..bufferLen];
        written := ProgramAhead(chip, currentAddress, buffer[..bufferLen], logStart, startAddress, hi);
      } else {
        written := EspFlash.FlashWrite(chip, currentAddress, Some([]), true);
      }
    }
    if patched {
      buffer[2] := bufferMode;
    }
    assert buffer[..bufferLen] == buffer[..][..bufferLen];
  }

  /** An object the template write reads from: bytes still to come, of which some may be
      available. */
  class ByteSource {
    var rest: seq<byte>

    method Available() returns (n: nat)
      ensures n <= |rest|
    {
      var some: int := *;
      n := if 0 <= some < |rest| then some else |rest|;
    }

    method Read(n: nat) returns (bytes: seq<byte>)
      requires n <= |rest|
      modifies this
      ensures bytes == old(rest)[..n] && rest == old(rest)[n..]
    {
      bytes, rest := rest[..n], rest[n..];
    }
  }

  class UpdaterClass {
    const board: Board
    const chip: Chip
    const rtc: array<u32>
    const verifier: Option<Verifier>
    /** MD5. */
    const digest: seq<byte> -> Digest

    var error: Error
    var buffer: array?<byte>
    var bufferLen: nat
    var bufferSize: nat
    var size: nat
    var startAddress: nat
    var currentAddress: nat
    var command: int
    var targetMd5: string
    /** The bytes given to the MD5 builder since it was started. */
    var md5: seq<byte>

    /** The bytes accepted since begin, and the length of the chip's log at that time. */
    ghost var sent: seq<byte>
    ghost var logStart: nat
    /** Byte 2 of the flash and the chip's faults at that time, and the flash mode that was found
        when the first buffer was staged. */
    ghost var header: byte
    ghost var faultsBefore: nat
    ghost var mode: byte

    function Progress(): int
      reads this
    {
      currentAddress - startAddress
    }

    function Remaining(): int
      reads this
    {
      size - (currentAddress - startAddress)
    }

    predicate IsFinished()
      reads this
    {
      currentAddress == startAddress + size
    }

    ghost function Flushed(): seq<byte>
      requires 0 <= Progress() <= |sent|
      reads this
    {
      sent[..Progress()]
    }

    ghost function SessionOps(): seq<Op>
      requires logStart <= |chip.log|
      reads this, chip
    {
      chip.log[logStart..]
    }

    ghost predicate Idle()
      reads this
    {
      buffer == null && bufferLen == 0 && startAddress == 0 && currentAddress == 0 && size == 0 && command == U_FLASH
    }

    /** Where the session stands: addresses, buffer and the bytes sent. */
    ghost predicate Placed()
      reads this, buffer
    {
      && 0 < size < 0x1_0000_0000 && error == NoError && startAddress < 0x1_0000_0000
      && (command == U_FLASH || command == U_FS)
      && buffer != null && buffer.Length == bufferSize && (bufferSize == 0x100 || bufferSize == 0x1000)
      && buffer as object != rtc
      && startAddress % 0x1000 == 0 && startAddress <= currentAddress
      && bufferLen <= bufferSize && Progress() + bufferLen == |sent| <= size
      && buffer[..bufferLen] == sent[Progress()..]
    }

    /** What the session has left in flash and in the MD5 builder. */
    ghost predicate Stored()
      requires 0 <= Progress() <= |sent|
      reads this, chip
    {
      && (Progress() > 0 ==>
           && currentAddress <= |chip.cells|
           && chip.cells[startAddress..currentAddress] == Staged(command, mode, Flushed()))
      && (verifier.None? ==> md5 == Hashed(command, mode, Flushed()))
      && (currentAddress % 0x1000 != 0 ==> AllOnes(chip.cells, currentAddress, SectorEnd(currentAddress)))
    }

    /** The mode that the image is given, when there had been so many faults. */
    ghost predicate ModeGivenBy(faults: nat)
      reads this
    {
      command == U_FLASH && sent != [] && sent[0] != 0x1f ==> ModeFor(startAddress, header, faults > faultsBefore, mode)
    }

    ghost predicate ModeGiven()
      reads this, chip
    {
      ModeGivenBy(chip.faults)
    }

    ghost predicate Headed()
      reads this, chip
    {
      && chip.faults >= faultsBefore && (startAddress > 0 && |chip.cells| > 2 ==> chip.cells[2] == header)
      && (Progress() > 0 ==> ModeGiven())
    }

    /** What the session has done to the chip. */
    ghost predicate Orderly()
      reads this, chip
    {
      && Headed() && logStart <= |chip.log|
      && Disciplined(SessionOps(), startAddress, startAddress + RoundUp(size))
      && (currentAddress % 0x1000 != 0 ==>
           BlankFrom(SessionOps(), EspFlash.Aligned(currentAddress), SectorEnd(currentAddress)))
    }

    ghost predicate Valid()
      reads this, chip, buffer
    {
      && chip.Valid() && board.Valid() && rtc.Length == EC.DW_COUNT
      && (size == 0 ==> Idle())
      && (size > 0 ==>
           && Placed() && Stored() && Orderly()
           && (Progress() % bufferSize == 0 || IsFinished())
           && (bufferLen == Remaining() ==> IsFinished()))
    }

    constructor (board: Board, chip: Chip, rtc: array<u32>, verifier: Option<Verifier>, digest: seq<byte> -> Digest)
      requires board.Valid() && chip.Valid() && rtc.Length == EC.DW_COUNT
      ensures Valid() && Idle() && this.board == board && this.chip == chip && this.rtc == rtc && this.verifier == verifier
    {
      this.board, this.chip, this.rtc, this.verifier, this.digest := board, chip, rtc, verifier, digest;
      error, targetMd5, md5 := NoError, "", [];
      buffer, bufferLen, bufferSize, size, startAddress, currentAddress, command := null, 0, 0, 0, 0, 0, U_FLASH;
      sent, logStart, header, faultsBefore, mode := [], 0, 0, 0, 0;
    }

    method Reset()
      modifies this
      ensures Idle() && error == old(error) && targetMd5 == old(targetMd5) && md5 == old(md5) && logStart == old(logStart)
      ensures mode == old(mode) && header == old(header) && faultsBefore == old(faultsBefore)
    {
      buffer, bufferLen, startAddress, currentAddress, size, command := null, 0, 0, 0, 0, U_FLASH;
    }

    method SetError(e: Error)
      modifies this
      ensures Idle() && error == e && targetMd5 == old(targetMd5) && md5 == old(md5) && logStart == old(logStart)
      ensures mode == old(mode) && header == old(header) && faultsBefore == old(faultsBefore)
    {
      error := e;
      Reset();
    }

    /** The part of begin that chooses the start address. */
    method ChooseStart(newSize: u32, newCommand: int) returns (start: Option<u32>)
      ensures start == UpdateStart(board, newSize, newCommand)
    {
      var currentSketchSize := (board.sketchSize + 0x1000 - 1) % 0x1_0000_0000 / 0x1000 * 0x1000;
      var roundedSize := (newSize + 0x1000 - 1) % 0x1_0000_0000 / 0x1000 * 0x1000;
      if newCommand == U_FLASH {
        var updateEndAddress := (board.fsStart - 0x4020_0000) % 0x1_0000_0000;
        var updateStartAddress := if updateEndAddress > roundedSize then updateEndAddress - roundedSize else 0;
        if updateStartAddress < currentSketchSize {
          return None;
        }
        return Some(updateStartAddress);
      } else if newCommand == U_FS {
        if (board.fsStart + roundedSize) % 0x1_0000_0000 > board.fsEnd {
          return None;
        }
        return Some((board.fsStart - 0x4020_0000) % 0x1_0000_0000);
      }
      return None;
    }

    /** begin. The boot mode, the flash configuration check, the free heap and the outcome of
        the allocation come from the platform. */
    method Begin(newSize: u32, newCommand: int, bootMode: int, configOk: bool, heapLarge: bool, outOfMemory: bool)
      returns (ok: bool)
      requires Valid()
      modifies this
      ensures Valid()
      ensures ok <==>
        && old(size) == 0 && newSize > 0 && bootMode != 1 && configOk && !outOfMemory
        && UpdateStart(board, newSize, newCommand).Some?
      ensures old(size) > 0 ==> size == old(size) && sent == old(sent) && error == old(error)
      ensures old(size) == 0 && !ok ==> Idle()
      ensures ok ==>
        && size == newSize && command == newCommand && sent == [] && bufferLen == 0 && targetMd5 == ""
        && startAddress == currentAddress == UpdateStart(board, newSize, newCommand).value
        && logStart == |chip.log| && fresh(buffer)
        && header == (if |chip.cells| > 2 then chip.cells[2] else 0) && faultsBefore == chip.faults
    {
      hide UpdateStart, RoundUp, SectorEnd, Disciplined, Staged, Hashed, AllOnes, BlankFrom;
      if size > 0 {
        return false;
      }
      if bootMode == 1 {
        SetError(BootstrapError);
        return false;
      }
      if newSize == 0 {
        SetError(SizeError);
        return false;
      }
      if !configOk {
        SetError(FlashConfigError);
        return false;
      }
      Reset();
      error, targetMd5, md5 := NoError, "", [];
      var updateStart := ChooseStart(newSize, newCommand);
      if updateStart.None? {
        if newCommand == U_FLASH || newCommand == U_FS {
          SetError(SpaceError);
        }
        return false;
      }
      startAddress, currentAddress, size := updateStart.value, updateStart.value, newSize;
      bufferSize := if heapLarge then 0x1000 else 0x100;
      if outOfMemory {
        SetError(OomError);
        Reset();
        return false;
      }
      OpenSession(newCommand);
      return true;
    }

    /** The last part of begin: the buffer is there. */
    method OpenSession(newCommand: int)
      requires chip.Valid() && board.Valid() && rtc.Length == EC.DW_COUNT && 0 < size < 0x1_0000_0000
      requires UpdateStart(board, size, newCommand) == Some(startAddress) && currentAddress == startAddress
      requires (bufferSize == 0x100 || bufferSize == 0x1000) && bufferLen == 0 && startAddress < 0x1_0000_0000
      requires error == NoError && md5 == []
      modifies this
      ensures Valid() && targetMd5 == old(targetMd5) && size == old(size) && startAddress == old(startAddress)
      ensures command == newCommand && sent == [] && currentAddress == startAddress && bufferLen == 0
      ensures logStart == |chip.log| && fresh(buffer)
      ensures header == (if |chip.cells| > 2 then chip.cells[2] else 0) && faultsBefore == chip.faults
    {
      hide *;
      UpdateStartAligned(board, size, newCommand);
      buffer := new byte[bufferSize];
      command := newCommand;
      sent, logStart := [], |chip.log|;
      header, faultsBefore := if |chip.cells| > 2 then chip.cells[2] else 0, chip.faults;
      NothingSent();
    }

    lemma NothingSent()
      requires chip.Valid() && board.Valid() && rtc.Length == EC.DW_COUNT && 0 < size < 0x1_0000_0000
      requires (command == U_FLASH || command == U_FS) && startAddress % 0x1000 == 0 && currentAddress == startAddress
      requires buffer != null && buffer.Length == bufferSize && (bufferSize == 0x100 || bufferSize == 0x1000)
      requires buffer as object != rtc && bufferLen == 0 && startAddress < 0x1_0000_0000 && error == NoError && md5 == []
      requires sent == [] && logStart == |chip.log| && faultsBefore == chip.faults
      requires header == if |chip.cells| > 2 then chip.cells[2] else 0
      ensures Valid()
    {
      hide ModeFor, SectorEnd, AllOnes, BlankFrom, EspFlash.Aligned, Staged, Hashed, UpdateStart, RoundUp;
      assert SessionOps() == [];
    }

    /** _writeBuffer: flush the buffer and account for it. */
    method WriteBuffer() returns (ok: bool)
      requires chip.Valid() && board.Valid() && Placed() && Stored() && Orderly()
      requires if bufferLen == 0 then IsFinished() else Progress() % bufferSize == 0
      modifies this, chip, buffer
      ensures chip.Valid() && chip.faults >= old(chip.faults) && logStart == old(logStart) <= |chip.log|
      ensures ok ==> old(bufferLen) > 0 && old(currentAddress) < |chip.cells|
      ensures old(bufferLen) > 0 && chip.faults == old(chip.faults) && old(currentAddress) < |chip.cells| ==> ok
      ensures ok && chip.faults > old(chip.faults) ==>
        old(Progress()) == 0 && mode == 0xff && chip.faults == old(chip.faults) + 1
      ensures header == old(header) && faultsBefore == old(faultsBefore) && (old(Progress()) > 0 ==> mode == old(mode))
      ensures old(bufferLen) > 0 ==>
        && Disciplined(SessionOps(), old(startAddress), old(startAddress) + RoundUp(old(size)))
        && SameOutside(old(chip.cells), chip.cells, old(startAddress), old(startAddress) + RoundUp(old(size)))
      ensures old(bufferLen) == 0 ==>
        chip.log == old(chip.log) + EraseAt(old(currentAddress))
      ensures !ok ==> Idle() && (error == WriteError || error == EraseError) && targetMd5 == old(targetMd5)
      ensures ok ==>
        && Placed() && Stored() && Orderly()
        && bufferLen == 0 && currentAddress == old(currentAddress) + old(bufferLen)
        && sent == old(sent) && size == old(size) && startAddress == old(startAddress) && command == old(command)
        && targetMd5 == old(targetMd5) && buffer == old(buffer) && bufferSize == old(bufferSize)
    {
      hide Disciplined, BlankFrom, AllOnes, SameOutside, Staged, Hashed, ChunkOnChip, Stored, Orderly, RoundUp, SectorEnd, EraseAt;
      var eraseResult, writeResult := FlushBuffer();
      if !eraseResult || !writeResult {
        SetError(if !eraseResult then EraseError else WriteError);
        return false;
      }
      Account(old(chip.cells));
      return true;
    }

    /** What a flush finds. */
    lemma AheadOfFlush()
      requires Placed() && Stored() && Orderly()
      requires if bufferLen == 0 then IsFinished() else Progress() % bufferSize == 0
      ensures logStart <= |chip.log| && Disciplined(SessionOps(), startAddress, startAddress + RoundUp(size))
      ensures Progress() > 0 ==>
        && currentAddress <= |chip.cells| && ModeGiven()
        && chip.cells[startAddress..currentAddress] == Staged(command, mode, Flushed())
      ensures verifier.None? ==> md5 == Hashed(command, mode, Flushed())
      ensures chip.faults >= faultsBefore && (startAddress > 0 && |chip.cells| > 2 ==> chip.cells[2] == header)
      ensures buffer[..bufferLen] == sent[Progress()..] && (bufferLen > 0 ==> buffer[0] == sent[Progress()..][0])
      ensures bufferLen == 0 ==> Progress() > 0
      ensures bufferLen > 0 ==>
        && currentAddress % 4 == 0 && (Progress() > 0 ==> Progress() >= 3)
        && currentAddress + bufferLen <= SectorEnd(currentAddress) <= startAddress + RoundUp(size)
        && (currentAddress % 0x1000 != 0 ==>
              && AllOnes(chip.cells, currentAddress, SectorEnd(currentAddress))
              && BlankFrom(SessionOps(), currentAddress, SectorEnd(currentAddress)))
    {
      hide Disciplined, BlankFrom, AllOnes, Staged, Hashed, RoundUp, SectorEnd, ModeFor;
      if bufferLen > 0 {
        ChunkInSector(startAddress, size, Progress(), bufferLen, bufferSize);
        ChunkAligned(startAddress, Progress(), bufferSize);
      }
    }

    /** Erase, patch and program; the ghost mode records what the first chunk was given. */
    method FlushBuffer() returns (erased: bool, written: bool)
      requires chip.Valid() && board.Valid() && Placed() && Stored() && Orderly()
      requires if bufferLen == 0 then IsFinished() else Progress() % bufferSize == 0
      modifies this`mode, chip, buffer
      ensures chip.Valid() && chip.faults >= old(chip.faults) && logStart <= |chip.log|
      ensures written ==> erased && bufferLen > 0 && currentAddress < |chip.cells|
      ensures bufferLen > 0 && chip.faults == old(chip.faults) && currentAddress < |chip.cells| ==> written
      ensures written && chip.faults > old(chip.faults) ==>
        Progress() == 0 && mode == 0xff && chip.faults == old(chip.faults) + 1
      ensures Progress() > 0 ==> mode == old(mode)
      ensures bufferLen > 0 ==>
        && Disciplined(SessionOps(), startAddress, startAddress + RoundUp(size))
        && SameOutside(old(chip.cells), chip.cells, startAddress, startAddress + RoundUp(size))
      ensures bufferLen == 0 ==>
        chip.log == old(chip.log) + EraseAt(currentAddress)
      ensures written ==> ChunkOnChip(old(chip.cells))
    {
      hide Disciplined, BlankFrom, AllOnes, SameOutside, Staged, Hashed, StagedChunk, HashedChunk, RoundUp, SectorEnd;
      hide EspFlash.Aligned, ModeFor, Stored, Orderly, Headed, EraseAt;
      ghost var hi, chunk := startAddress + RoundUp(size), sent[Progress()..];
      AheadOfFlush();
      var flashMode;
      erased, written, flashMode := FlushToChip(
        chip, buffer, bufferLen, currentAddress, startAddress, command, logStart, hi);
      if bufferLen > 0 {
        WiderOutside(old(chip.cells), chip.cells, currentAddress, SectorEnd(currentAddress), startAddress, hi);
        HeaderOutside(old(chip.cells), chip.cells, startAddress, hi);
      }
      if written {
        ModeAtZero(startAddress, 0, header, chip.faults > old(chip.faults), flashMode);
        RecordMode(flashMode, old(chip.cells), old(chip.faults));
      } else if Progress() == 0 {
        mode := flashMode;
      }
    }

    /** The mode that the first chunk was given is kept for the rest of the session. */
    method RecordMode(flashMode: byte, ghost before: seq<byte>, ghost faultsThen: nat)
      requires 0 < size < 0x1_0000_0000 && error == NoError && startAddress < 0x1_0000_0000
      requires (command == U_FLASH || command == U_FS) && startAddress <= currentAddress
      requires buffer != null && buffer as object != rtc && buffer.Length == bufferSize && (bufferSize == 0x100 || bufferSize == 0x1000)
      requires startAddress % 0x1000 == 0 && 0 < bufferLen <= bufferSize && Progress() + bufferLen == |sent| <= size
      requires Progress() > 0 ==>
        && Progress() >= 3 && currentAddress <= |before| && ModeGivenBy(faultsThen)
        && before[startAddress..currentAddress] == Staged(command, mode, Flushed())
      requires verifier.None? ==> md5 == Hashed(command, mode, Flushed())
      requires SameOutside(before, chip.cells, currentAddress, SectorEnd(currentAddress))
      requires currentAddress + bufferLen <= SectorEnd(currentAddress) <= |chip.cells|
      requires var first, chunk := currentAddress == startAddress, sent[Progress()..];
        && chip.cells[currentAddress..currentAddress + bufferLen] == StagedChunk(first, command, flashMode, chunk)
        && buffer[..bufferLen] == HashedChunk(first, command, flashMode, chunk)
        && (first && chunk[0] != 0x1f && command == U_FLASH ==>
              ModeFor(startAddress, header, chip.faults > faultsThen, flashMode))
      requires AllOnes(chip.cells, currentAddress + bufferLen, SectorEnd(currentAddress))
      requires logStart <= |chip.log| && Disciplined(SessionOps(), startAddress, startAddress + RoundUp(size))
      requires BlankFrom(SessionOps(), EspFlash.Aligned(currentAddress + bufferLen), SectorEnd(currentAddress))
      requires chip.faults >= faultsThen >= faultsBefore && (startAddress > 0 && |chip.cells| > 2 ==> chip.cells[2] == header)
      modifies this`mode
      ensures ChunkOnChip(before) && mode == if Progress() == 0 then flashMode else old(mode)
    {
      hide Disciplined, BlankFrom, AllOnes, SameOutside, Staged, Hashed, StagedChunk, HashedChunk, RoundUp, SectorEnd;
      hide EspFlash.Aligned, ModeFor, EraseAt;
      if Progress() == 0 {
        mode := flashMode;
        NothingHashed(command, old(mode), flashMode);
      } else {
        ModeMattersOnce(command, flashMode, mode, sent[Progress()..]);
      }
      ModeForMore(startAddress, header, faultsThen > faultsBefore, chip.faults > faultsBefore, mode);
      ModeForMore(startAddress, header, chip.faults > faultsThen, chip.faults > faultsBefore, mode);
    }

    /** A chunk was staged behind the ones before it. */
    ghost predicate ChunkOnChip(before: seq<byte>)
      requires logStart <= |chip.log|
      reads this, chip, buffer
    {
      && 0 < size < 0x1_0000_0000 && error == NoError && startAddress < 0x1_0000_0000
      && (command == U_FLASH || command == U_FS)
      && 0 < bufferLen && startAddress <= currentAddress
      && (buffer != null && buffer.Length == bufferSize && (bufferSize == 0x100 || bufferSize == 0x1000))
      && buffer as object != rtc && startAddress % 0x1000 == 0 && bufferLen <= bufferSize
      && Progress() + bufferLen == |sent| <= size
      && (Progress() > 0 ==>
        && Progress() >= 3 && currentAddress <= |before|
        && before[startAddress..currentAddress] == Staged(command, mode, Flushed()))
      && (verifier.None? ==> md5 == Hashed(command, mode, Flushed()))
      && SameOutside(before, chip.cells, currentAddress, SectorEnd(currentAddress))
      && currentAddress + bufferLen <= SectorEnd(currentAddress) <= |chip.cells|
      && chip.cells[currentAddress..currentAddress + bufferLen]
        == StagedChunk(Progress() == 0, command, mode, sent[Progress()..])
      && buffer[..bufferLen] == HashedChunk(Progress() == 0, command, mode, sent[Progress()..])
      && AllOnes(chip.cells, currentAddress + bufferLen, SectorEnd(currentAddress))
      && logStart <= |chip.log| && Disciplined(SessionOps(), startAddress, startAddress + RoundUp(size))
      && BlankFrom(SessionOps(), EspFlash.Aligned(currentAddress + bufferLen), SectorEnd(currentAddress))
      && (chip.faults >= faultsBefore && (startAddress > 0 && |chip.cells| > 2 ==> chip.cells[2] == header) && ModeGiven())
    }

    /** What that comes to once the chunk is counted. */
    lemma ChunkCounts(before: seq<byte>)
      requires logStart <= |chip.log| && ChunkOnChip(before)
      ensures var next := currentAddress + bufferLen;
        && next <= |chip.cells| && chip.cells[startAddress..next] == Staged(command, mode, sent)
        && (verifier.None? ==> md5 + buffer[..bufferLen] == Hashed(command, mode, sent))
        && Disciplined(SessionOps(), startAddress, startAddress + RoundUp(size))
    {
      hide Staged, Hashed, StagedChunk, HashedChunk, SameOutside, AllOnes, BlankFrom, Disciplined, RoundUp, SectorEnd;
      hide EspFlash.Aligned, ModeFor, ModeGivenBy;
      StagedGrows(command, mode, before, chip.cells, startAddress, sent, Progress(), SectorEnd(currentAddress));
    }

    lemma ChunkLeaves(before: seq<byte>)
      requires logStart <= |chip.log| && ChunkOnChip(before)
      ensures var next := currentAddress + bufferLen;
        next % 0x1000 != 0 ==>
          AllOnes(chip.cells, next, SectorEnd(next)) && BlankFrom(SessionOps(), EspFlash.Aligned(next), SectorEnd(next))
    {
      hide Staged, Hashed, StagedChunk, HashedChunk, SameOutside, AllOnes, BlankFrom, Disciplined, RoundUp, SectorEnd;
      hide EspFlash.Aligned, ModeFor, ModeGivenBy;
      RestOfSector(chip.cells, currentAddress, bufferLen);
      RestIsBlank(SessionOps(), currentAddress, bufferLen);
    }

    lemma ChunkPlaced(before: seq<byte>)
      requires logStart <= |chip.log| && ChunkOnChip(before)
      ensures 0 < size < 0x1_0000_0000 && error == NoError && startAddress < 0x1_0000_0000 && buffer as object != rtc
      ensures (command == U_FLASH || command == U_FS) && startAddress <= currentAddress
      ensures buffer != null && buffer.Length == bufferSize && (bufferSize == 0x100 || bufferSize == 0x1000)
      ensures startAddress % 0x1000 == 0 && 0 < bufferLen <= bufferSize && Progress() + bufferLen == |sent| <= size
      ensures chip.faults >= faultsBefore && (startAddress > 0 && |chip.cells| > 2 ==> chip.cells[2] == header) && ModeGiven()
    {
    }

    /** The bookkeeping after a chunk went to the chip. */
    method Account(ghost before: seq<byte>)
      requires logStart <= |chip.log| && ChunkOnChip(before)
      modifies this`md5, this`currentAddress, this`bufferLen
      ensures currentAddress == old(currentAddress) + old(bufferLen) && bufferLen == 0
      ensures Placed() && Stored() && Orderly()
    {
      hide Staged, Hashed, ChunkOnChip, AllOnes, BlankFrom, Disciplined, RoundUp, SectorEnd, EspFlash.Aligned, ModeFor;
      ChunkCounts(before);
      ChunkLeaves(before);
      ChunkPlaced(before);
      if verifier.None? {
        md5 := md5 + buffer[..bufferLen];
      }
      currentAddress := currentAddress + bufferLen;
      bufferLen := 0;
      assert Flushed() == sent;
    }

    /** memcpy into the buffer. */
    method Append(bytes: seq<byte>)
      requires Placed() && Stored() && Orderly()
      requires bufferLen + |bytes| <= bufferSize && Progress() + bufferLen + |bytes| <= size
      modifies this`bufferLen, this`sent, buffer
      ensures Placed() && Stored() && Orderly()
      ensures sent == old(sent) + bytes && bufferLen == old(bufferLen) + |bytes|
    {
      hide Disciplined, BlankFrom, AllOnes, Staged, Hashed, RoundUp, SectorEnd;
      hide EspFlash.Aligned, ModeFor, EraseAt;
      ghost var flushed := Flushed();
      forall i | 0 <= i < |bytes| {
        buffer[bufferLen + i] := bytes[i];
      }
      sent := sent + bytes;
      bufferLen := bufferLen + |bytes|;
      assert Flushed() == flushed;
      assert buffer[..bufferLen] == old(buffer[..bufferLen]) + bytes;
    }

    /** The session survived some writing: the same session, with more bytes sent. */
    twostate predicate Continued(more: seq<byte>)
      reads this, chip, buffer
    {
      && size == old(size) > 0 && startAddress == old(startAddress) && command == old(command)
      && targetMd5 == old(targetMd5) && logStart == old(logStart) && bufferSize == old(bufferSize)
      && buffer == old(buffer) && sent == old(sent) + more
      && header == old(header) && faultsBefore == old(faultsBefore)
    }

    /** What writing in a session may do to the chip, whatever fails. */
    twostate predicate StayedInside()
      requires old(logStart) <= |chip.log|
      reads this, chip
    {
      && Disciplined(chip.log[old(logStart)..], old(startAddress), old(startAddress) + RoundUp(old(size)))
      && SameOutside(old(chip.cells), chip.cells, old(startAddress), old(startAddress) + RoundUp(old(size)))
    }

    /** One round of write's loop: top up the buffer and flush it. */
    method FillAndFlush(bytes: seq<byte>) returns (ok: bool)
      requires chip.Valid() && board.Valid() && Placed() && Stored() && Orderly()
      requires bufferLen + |bytes| == bufferSize && Progress() + bufferSize <= size && Progress() % bufferSize == 0
      modifies this, chip, buffer
      ensures chip.Valid() && chip.faults >= old(chip.faults)
      ensures logStart == old(logStart) <= |chip.log| && StayedInside()
      ensures !ok ==> Idle() && error != NoError
      ensures !ok ==> chip.faults > old(chip.faults) || old(startAddress + size) > |chip.cells|
      ensures ok ==>
        && Continued(bytes) && Placed() && Stored() && Orderly()
        && bufferLen == 0 && Progress() % bufferSize == 0
    {
      hide Disciplined, BlankFrom, AllOnes, Staged, Hashed, RoundUp, SectorEnd, SameOutside;
      hide EspFlash.Aligned, ModeFor, EraseAt;
      WholeBuffers(Progress(), bufferSize);
      Append(bytes);
      ok := WriteBuffer();
    }

    /** The while loop of write: buffers that overflow are flushed. */
    method WriteFullBuffers(data: seq<byte>) returns (ok: bool, left: nat)
      requires Valid() && size > 0 && |sent| + |data| <= size
      modifies this, chip, buffer
      ensures chip.Valid() && chip.faults >= old(chip.faults) && left <= |data|
      ensures logStart == old(logStart) <= |chip.log| && StayedInside()
      ensures !ok ==> 0 < left && Idle() && error != NoError
      ensures !ok ==> chip.faults > old(chip.faults) || old(startAddress + size) > |chip.cells|
      ensures ok ==>
        && Continued(data[..|data| - left]) && (left == 0 ==> |data| == 0)
        && Placed() && Stored() && Orderly() && bufferLen + left <= bufferSize
        && (Progress() % bufferSize == 0 || (data == [] && IsFinished()))
      ensures data == [] ==> ok && unchanged(this) && unchanged(chip)
    {
      hide Disciplined, BlankFrom, AllOnes, Staged, Hashed, RoundUp, SectorEnd, SameOutside, Stored;
      hide EspFlash.Aligned, ModeFor, EraseAt;
      left := |data|;
      SameEverywhere(chip.cells, startAddress, startAddress + RoundUp(size));
      AppendSlices(sent, data, 0, 0);
      assert sent + data[..0] == sent;
      ok := true;
      while bufferLen + left > bufferSize
        invariant left <= |data| && (left == 0 ==> |data| == 0)
        invariant chip.Valid() && chip.faults >= old(chip.faults)
        invariant Placed() && Stored() && Orderly() && Continued(data[..|data| - left])
        invariant Progress() % bufferSize == 0 || (data == [] && IsFinished())
        invariant StayedInside()
        invariant data == [] ==> unchanged(this) && unchanged(chip)
        decreases left, bufferLen
      {
        var toBuff := bufferSize - bufferLen;
        ghost var cells, done := chip.cells, |data| - left;
        AppendSlices(old(sent), data, done, done + toBuff);
        ok := FillAndFlush(data[|data| - left..|data| - left + toBuff]);
        OutsideThen(old(chip.cells), cells, chip.cells, old(startAddress), old(startAddress) + RoundUp(old(size)));
        if !ok {
          return;
        }
        left := left - toBuff;
      }
    }

    /** The end of write: keep the rest, and flush it when the image is complete. */
    method WriteRest(rest: seq<byte>) returns (ok: bool)
      requires chip.Valid() && board.Valid() && rtc.Length == EC.DW_COUNT && Placed() && Stored() && Orderly()
      requires bufferLen + |rest| <= bufferSize && Progress() + bufferLen + |rest| <= size
      requires Progress() % bufferSize == 0 || (rest == [] && bufferLen == 0 && IsFinished())
      modifies this, chip, buffer
      ensures Valid() && chip.faults >= old(chip.faults) && logStart == old(logStart) <= |chip.log|
      ensures ok ==> Continued(rest)
      ensures !ok ==> Idle() && error != NoError && |old(sent)| + |rest| == old(size)
      ensures !(old(IsFinished()) && rest == []) ==>
        StayedInside() && (!ok ==> chip.faults > old(chip.faults) || old(startAddress + size) > |chip.cells|)
      ensures old(IsFinished()) && rest == [] ==>
        && !ok
        && chip.log == old(chip.log) + EraseAt(old(startAddress + size))
    {
      hide Disciplined, BlankFrom, AllOnes, Staged, Hashed, RoundUp, SectorEnd, SameOutside, Stored;
      hide EspFlash.Aligned, ModeFor, EraseAt;
      Append(rest);
      ok := true;
      if bufferLen == Remaining() {
        ok := WriteBuffer();
      } else {
        Untouched();
      }
    }

    /** A session that has not touched the chip since is still inside its window. */
    twostate lemma Untouched()
      requires logStart == old(logStart) <= |chip.log| && startAddress == old(startAddress) && size == old(size)
      requires Orderly() && unchanged(chip)
      ensures StayedInside()
    {
    }

    /** write: all bytes are taken, or the session is over. */
    method Write(data: seq<byte>) returns (n: nat)
      requires Valid()
      modifies this, chip, buffer
      ensures Valid() && chip.faults >= old(chip.faults)
      ensures old(size) == 0 ==> n == 0 && Idle() && chip.log == old(chip.log) && chip.cells == old(chip.cells)
      ensures old(size) > 0 && |old(sent)| + |data| > old(size) ==>
        n == 0 && Idle() && error == SpaceError && chip.log == old(chip.log) && chip.cells == old(chip.cells)
      ensures old(size) > 0 && |old(sent)| + |data| <= old(size) ==>
        && logStart == old(logStart) <= |chip.log|
        && (size > 0 ==> n == |data| && Continued(data))
        && (size == 0 ==> Idle() && error != NoError && n <= |data| && (n == |data| ==> data == []))
        && (if old(IsFinished()) && data == [] then
              // an empty write to a complete session: the session dies, after an erase behind
              // the staging area when the image fills whole sectors
              && size == 0
              && chip.log == old(chip.log) + EraseAt(old(startAddress + size))
            else
              && StayedInside()
              && (size == 0 ==> chip.faults > old(chip.faults) || old(startAddress + size) > |chip.cells|))
    {
      hide Disciplined, BlankFrom, AllOnes, Staged, Hashed, RoundUp, SectorEnd, SameOutside, Stored;
      hide EspFlash.Aligned, ModeFor, EraseAt;
      if error != NoError || size == 0 {
        return 0;
      }
      if Progress() + bufferLen + |data| > size {
        SetError(SpaceError);
        return 0;
      }
      var ok, left := WriteFullBuffers(data);
      if !ok {
        return |data| - left;
      }
      ghost var cells := chip.cells;
      AppendSlices(old(sent), data, |data| - left, |data|);
      ok := WriteRest(data[|data| - left..]);
      if !(old(IsFinished()) && data == []) {
        OutsideThen(old(chip.cells), cells, chip.cells, old(startAddress), old(startAddress) + RoundUp(old(size)));
      }
      n := if ok then |data| else |data| - left;
    }

    /** What either way of taking some bytes of a source comes to. */
    twostate predicate Took(bytes: seq<byte>, ok: bool)
      requires old(logStart) <= |chip.log|
      reads this, chip, buffer
    {
      && logStart == old(logStart)
      && (if ok then Continued(bytes) else Idle() && size == 0 && error != NoError)
      && (!old(IsFinished()) ==>
            StayedInside() && (!ok ==> chip.faults > old(chip.faults) || old(startAddress + size) > |chip.cells|))
    }

    /** Take as much as tops up the buffer. */
    method TakeFull(source: ByteSource) returns (ok: bool, bytes: seq<byte>)
      requires Valid() && size > 0 && bufferSize - bufferLen <= |source.rest| && bufferSize < Remaining()
      modifies this, chip, buffer, source
      ensures chip.faults >= old(chip.faults) && old(logStart) <= |chip.log| && Took(bytes, ok)
      ensures Valid() && old(source.rest) == bytes + source.rest
      ensures |bytes| == old(bufferSize) - old(bufferLen) && (ok ==> bufferLen == 0) && !old(IsFinished())
    {
      hide Disciplined, BlankFrom, AllOnes, Staged, Hashed, RoundUp, SectorEnd, SameOutside, Stored, Orderly;
      hide EspFlash.Aligned, ModeFor, EraseAt;
      bytes := source.Read(bufferSize - bufferLen);
      ok := FillAndFlush(bytes);
    }

    /** Take so many bytes, which fit the buffer and the image. */
    method TakeRest(source: ByteSource, n: nat) returns (ok: bool, bytes: seq<byte>)
      requires Valid() && size > 0 && n <= |source.rest| && bufferLen + n <= bufferSize && bufferLen + n <= Remaining()
      requires n == 0 ==> IsFinished()
      modifies this, chip, buffer, source
      ensures chip.faults >= old(chip.faults) && old(logStart) <= |chip.log| && Valid()
      ensures old(source.rest) == bytes + source.rest && |bytes| == n && (!ok ==> |old(sent)| + n == old(size))
      ensures !(old(IsFinished()) && n == 0) ==> Took(bytes, ok)
      ensures ok ==> Continued(bytes) && !old(IsFinished())
      ensures !ok ==> Idle() && size == 0 && error != NoError && logStart == old(logStart)
      ensures old(IsFinished()) ==>
        && !ok && bytes == []
        && chip.log == old(chip.log) + EraseAt(old(startAddress + size))
    {
      hide Disciplined, BlankFrom, AllOnes, Staged, Hashed, RoundUp, SectorEnd, SameOutside, Stored, Orderly;
      hide EspFlash.Aligned, ModeFor, EraseAt;
      bytes := source.Read(n);
      ok := WriteRest(bytes);
    }

    /** One round of the template write: take what fits of what is available. */
    method TakeSome(source: ByteSource, offered: nat) returns (ok: bool, bytes: seq<byte>, counted: nat)
      requires Valid() && size > 0 && 0 < offered <= |source.rest|
      modifies this, chip, buffer, source
      ensures chip.faults >= old(chip.faults) && logStart == old(logStart) <= |chip.log|
      ensures Valid() && old(source.rest) == bytes + source.rest
      ensures ok ==> Continued(bytes) && !old(IsFinished()) && counted == |bytes|
      // of a failed flush the bytes count only when they completed the image
      ensures !ok ==> if |old(sent)| + |bytes| == old(size) then counted == |bytes|
                      else counted == 0 && |old(sent)| + |bytes| < old(size) && |bytes| <= old(bufferSize)
      ensures ok ==> |source.rest| < |old(source.rest)| || (source.rest == old(source.rest) && bufferLen < old(bufferLen))
      ensures !ok ==> Idle() && size == 0 && error != NoError
      ensures !old(IsFinished()) ==>
        StayedInside() && (!ok ==> chip.faults > old(chip.faults) || old(startAddress + size) > |chip.cells|)
      ensures old(IsFinished()) ==>
        && !ok && bytes == []
        && chip.log == old(chip.log) + EraseAt(old(startAddress + size))
    {
      hide Valid, StayedInside, SectorEnd, RoundUp, EraseAt;
      Standing();
      var available := offered;
      if bufferLen + available > Remaining() {
        available := Remaining() - bufferLen;
      }
      if bufferLen + available > bufferSize {
        ok, bytes := TakeFull(source);
        counted := if ok then |bytes| else 0;
      } else {
        ok, bytes := TakeRest(source, available);
        counted := available;
      }
    }

    /** Where a session stands between two writes. */
    lemma Standing()
      requires Valid() && size > 0
      ensures 0 <= bufferLen <= Remaining() && bufferLen <= bufferSize && bufferSize > 0
      ensures |sent| == Progress() + bufferLen <= size && (bufferLen == Remaining() ==> IsFinished())
    {
    }

    lemma Begun()
      requires Valid()
      ensures size == 0 ==> Idle()
      ensures size > 0 ==>
        && error == NoError && 0 <= bufferLen && |sent| <= size && (IsFinished() <==> |sent| == size) && logStart <= |chip.log|
        && Disciplined(chip.log[logStart..], startAddress, startAddress + RoundUp(size))
    {
    }

    /** The template write: take what a source has available until the image is complete. */
    method WriteFrom(source: ByteSource) returns (written: nat)
      requires Valid()
      modifies this, chip, buffer, source
      ensures Valid() && chip.faults >= old(chip.faults)
      ensures old(size) == 0 ==> written == 0 && Idle() && chip.log == old(chip.log) && source.rest == old(source.rest)
      ensures old(size) > 0 ==>
        && logStart == old(logStart) <= |chip.log|
        && (size > 0 ==>
              && written <= |old(source.rest)| && source.rest == old(source.rest)[written..]
              && Continued(old(source.rest)[..written]))
        && (size == 0 ==> Idle() && error != NoError)
      // after a failed flush: all bytes taken are counted when they completed the image, and
      // otherwise all but the last ones, which filled the buffer
      ensures old(size) > 0 && size == 0 ==>
        var n := |old(source.rest)| - |source.rest|;
        && 0 <= n <= old(size) - |old(sent)| && source.rest == old(source.rest)[n..]
        && if |old(sent)| + n == old(size) then written == n else written <= n <= written + old(bufferSize)
      ensures old(size) > 0 && !old(IsFinished()) ==>
        StayedInside() && (size == 0 ==> chip.faults > old(chip.faults) || old(startAddress + size) > |chip.cells|)
      // a complete session survives only a source with nothing to offer
      ensures old(size) > 0 && old(IsFinished()) ==>
        && written == 0 && source.rest == old(source.rest)
        && chip.log == old(chip.log) +
           (if size == 0 then EraseAt(old(startAddress + size)) else [])
    {
      hide Disciplined, BlankFrom, AllOnes, Staged, Hashed, RoundUp, SectorEnd, SameOutside, Valid, Idle;
      hide EspFlash.Aligned, ModeFor, EraseAt;
      Begun();
      if error != NoError || size == 0 {
        return 0;
      }
      written := TakeAll(source);
    }

    /** The loop of it. */
    method TakeAll(source: ByteSource) returns (written: nat)
      requires Valid() && size > 0
      modifies this, chip, buffer, source
      ensures Valid() && chip.faults >= old(chip.faults) && logStart == old(logStart) <= |chip.log|
      ensures size > 0 ==>
        && written <= |old(source.rest)| && source.rest == old(source.rest)[written..]
        && Continued(old(source.rest)[..written])
      ensures size == 0 ==> Idle() && error != NoError
      ensures size == 0 ==>
        var n := |old(source.rest)| - |source.rest|;
        && 0 <= n <= old(size) - |old(sent)| && source.rest == old(source.rest)[n..]
        && if |old(sent)| + n == old(size) then written == n else written <= n <= written + old(bufferSize)
      ensures !old(IsFinished()) ==>
        StayedInside() && (size == 0 ==> chip.faults > old(chip.faults) || old(startAddress + size) > |chip.cells|)
      ensures old(IsFinished()) ==>
        && written == 0 && source.rest == old(source.rest)
        && chip.log == old(chip.log) +
           (if size == 0 then EraseAt(old(startAddress + size)) else [])
    {
      hide Disciplined, BlankFrom, AllOnes, Staged, Hashed, RoundUp, SectorEnd, SameOutside, Valid, Idle;
      hide EspFlash.Aligned, ModeFor, EraseAt;
      Begun();
      written := 0;
      ghost var got: seq<byte>, lo, hi := [], startAddress, startAddress + RoundUp(size);
      SameEverywhere(chip.cells, lo, hi);
      assert sent + got == sent;
      var available := source.Available();
      while available > 0
        invariant Valid() && size > 0 && logStart == old(logStart) <= |chip.log| && StayedInside()
        invariant chip.faults >= old(chip.faults)
        invariant old(source.rest) == got + source.rest && written == |got| && Continued(got)
        invariant old(IsFinished()) ==> got == [] && chip.log == old(chip.log)
        invariant IsFinished() ==> old(IsFinished())
        invariant available <= |source.rest|
        decreases |source.rest|, bufferLen
      {
        Begun();
        ghost var cells := chip.cells;
        var ok, bytes, counted := TakeSome(source, available);
        Associates(got, bytes, source.rest);
        Associates(old(sent), got, bytes);
        if !old(IsFinished()) {
          OutsideThen(old(chip.cells), cells, chip.cells, lo, hi);
        }
        written := written + counted;
        if !ok {
          TakenSoFar(old(source.rest), got, bytes, source.rest);
          return;
        }
        got := got + bytes;
        if Remaining() == 0 {
          break;
        }
        available := source.Available();
      }
      TakenSoFar(old(source.rest), got, [], source.rest);
    }

    /** setMD5: an expected digest of 32 hexadecimal digits. */
    method SetMd5(expected: string) returns (ok: bool)
      requires Valid()
      modifies this`targetMd5
      ensures Valid() && (ok <==> |expected| == 32)
      ensures targetMd5 == if ok then expected else old(targetMd5)
    {
      if |expected| != 32 {
        return false;
      }
      targetMd5 := expected;
      return true;
    }

    /** One read of the hash loop: a size that is not a multiple of four, or a failing chip,
        leaves the buffer as it was. */
    method ReadChunk(address: nat, len: nat, buffer: seq<byte>) returns (buff: seq<byte>, ghost failed: bool)
      requires chip.Valid() && |buffer| == 128 && len <= 128
      modifies chip`faults
      ensures chip.faults >= old(chip.faults) && |buff| == 128
      ensures address + len <= |chip.cells| ==>
        && buff == (if failed || len % 4 != 0 then buffer else chip.cells[address..address + len] + buffer[len..])
        && (failed ==> chip.faults > old(chip.faults))
    {
      buff, failed := buffer, false;
      if len % 4 == 0 {
        var ok, bytes := chip.Read(address, len);
        if ok {
          buff := bytes + buff[len..];
        }
        failed := !ok;
      }
    }

    /** The hash of the payload, 128 bytes at a time; reads that fail go unnoticed. */
    method HashPayload(binSize: nat) returns (fed: seq<byte>, ghost junk: seq<byte>, ghost failures: seq<bool>)
      requires chip.Valid()
      modifies chip`faults
      ensures chip.faults >= old(chip.faults) && |junk| == 128 && |fed| == binSize
      ensures startAddress + binSize <= |chip.cells| ==>
        var payload := chip.cells[startAddress..startAddress + binSize];
        && binSize <= 128 * |failures| < binSize + 128 && fed == FedAfter(payload, junk, failures).fed
        && Failed(failures) <= chip.faults - old(chip.faults)
        && (chip.faults == old(chip.faults) ==> true !in failures && fed == HashFed(payload, junk))
    {
      hide HashFed, FedAfter, FedSoFar, Failed;
      var stack: seq<byte> := *;
      var buff := if |stack| >= 128 then stack[..128] else seq(128, _ => 0);
      junk, failures := buff, [];
      fed := [];
      var offset := 0;
      ghost var inRange := startAddress + binSize <= |chip.cells|;
      ghost var payload := if inRange then chip.cells[startAddress..startAddress + binSize] else seq(binSize, _ => 0);
      FedAtFirst(payload, junk);
      NoneFailed(failures);
      while offset < binSize
        invariant |buff| == 128 && chip.faults >= old(chip.faults) && |fed| == Min(offset, binSize)
        invariant offset == 128 * |failures| < binSize + 128
        invariant inRange ==> FedAfter(payload, junk, failures) == Feeding(fed, buff)
        invariant inRange ==> Failed(failures) <= chip.faults - old(chip.faults)
      {
        ghost var failed;
        buff, fed, failed := HashChunk(offset, binSize, buff, fed, payload, junk, failures);
        FailedMore(failures, failed);
        failures := failures + [failed];
        offset := offset + 128;
      }
      if inRange && chip.faults == old(chip.faults) {
        NoneFailed(failures);
        FedWithoutFailures(payload, junk, failures);
        FedAll(payload, junk, offset, fed, buff);
      }
    }

    /** One round of it. */
    method HashChunk(offset: nat, binSize: nat, buffer: seq<byte>, before: seq<byte>, ghost payload: seq<byte>,
                     ghost junk: seq<byte>, ghost failures: seq<bool>)
      returns (buff: seq<byte>, fed: seq<byte>, ghost failed: bool)
      requires chip.Valid() && |buffer| == |junk| == 128 && offset == 128 * |failures| < binSize == |payload|
      requires startAddress + binSize <= |chip.cells| ==>
        && payload == chip.cells[startAddress..startAddress + binSize]
        && FedAfter(payload, junk, failures) == Feeding(before, buffer)
      modifies chip`faults
      ensures chip.faults >= old(chip.faults) && |buff| == 128 && |fed| == |before| + Min(128, binSize - offset)
      ensures startAddress + binSize <= |chip.cells| ==>
        && FedAfter(payload, junk, failures + [failed]) == Feeding(fed, buff)
        && (failed ==> chip.faults > old(chip.faults))
    {
      hide FedAfter;
      var len := Min(128, binSize - offset);
      buff, failed := ReadChunk(startAddress + offset, len, buffer);
      if startAddress + binSize <= |chip.cells| {
        SliceOfSlice(chip.cells, startAddress, binSize, offset, offset + len);
        FedOneMore(payload, junk, failures, failed, buff);
      }
      fed := before + buff[..len];
    }

    /** Where the length word is read, in 32-bit arithmetic. */
    static function TrailerAt(start: nat, size: nat): nat {
      (start + size - 4) % 0x1_0000_0000
    }

    static lemma TrailerAddress(start: nat, size: nat, cells: nat)
      requires cells < 0x8000_0000
      ensures 4 <= start + size <= cells ==> TrailerAt(start, size) == start + size - 4
    {
    }

    /** The length word of the trailer. */
    method ReadSigLen(v: Verifier) returns (sigLen: nat)
      requires chip.Valid() && (size == 0 ==> startAddress == 0)
      modifies chip`faults
      ensures chip.faults >= old(chip.faults) && (v.sigLen == 0 ==> sigLen == 0)
      ensures startAddress + size <= |chip.cells| ==>
        || v.sigLen == 0 || size < 4 || (sigLen == 0 && chip.faults > old(chip.faults))
        || sigLen == WordOf(chip.cells[startAddress..startAddress + size][size - 4..])
    {
      hide WordOf, TrailerAt;
      TrailerAddress(startAddress, size, |chip.cells|);
      var sigLenAddr := TrailerAt(startAddress, size);
      sigLen := 0;
      if v.sigLen > 0 {
        if 4 <= size && startAddress + size <= |chip.cells| {
          SliceOfSlice(chip.cells, startAddress, size, size - 4, size);
        }
        var read, bytes := chip.Read(sigLenAddr, 4);
        if read {
          sigLen := WordOf(bytes);
        }
      }
    }

    /** The first half of the signature branch of end(): the payload size from the trailer. */
    method ReadTrailer(v: Verifier) returns (ok: bool, binSize: nat)
      requires chip.Valid() && (size == 0 ==> startAddress == 0)
      modifies chip`faults
      ensures chip.faults >= old(chip.faults) && binSize <= size
      ensures ok ==> if v.sigLen == 0 then binSize == size else binSize + v.sigLen + 4 == size
      // a trailer that cannot be read is refused
      ensures startAddress + size <= |chip.cells| ==>
        var image := chip.cells[startAddress..startAddress + size];
        if ok then PayloadSize(v, image, binSize)
        else chip.faults > old(chip.faults) || forall bin :: !PayloadSize(v, image, bin)
    {
      hide WordOf, PayloadSize;
      binSize := size;
      var sigLen := ReadSigLen(v);
      if startAddress + size <= |chip.cells| && (sigLen == v.sigLen || chip.faults == old(chip.faults)) {
        NoPayload(v, chip.cells[startAddress..startAddress + size], sigLen);
      }
      if sigLen != v.sigLen {
        return false, binSize;
      }
      if v.sigLen > 0 {
        if binSize < sigLen + 4 {
          return false, binSize;
        }
        binSize := binSize - (sigLen + 4);
      }
      ok := true;
    }

    /** What a buffer holds that a failing read should have filled. */
    static method Uninitialised(n: nat) returns (bytes: seq<byte>)
      ensures |bytes| == n
    {
      var heap: seq<byte> := *;
      bytes := if |heap| >= n then heap[..n] else seq(n, _ => 0);
    }

    /** The second half: hash the payload and put it to the verifier with the signature. */
    method CheckPayload(v: Verifier, binSize: nat) returns (res: Error, ghost seen: Seen)
      requires chip.Valid()
      requires if v.sigLen == 0 then binSize == size else binSize + v.sigLen + 4 == size
      requires startAddress + size <= |chip.cells| ==> PayloadSize(v, chip.cells[startAddress..startAddress + size], binSize)
      modifies chip`faults
      ensures chip.faults >= old(chip.faults) && |seen.junk| == 128 && res in {NoError, SignError, OomError}
      ensures startAddress + size <= |chip.cells| && res != OomError ==>
        var image, faults := chip.cells[startAddress..startAddress + size], chip.faults - old(chip.faults);
        && SeenOf(v, image, binSize, seen, faults)
        && (res == NoError <==> Approved(v, image, binSize, seen, faults))
    {
      hide HashFed, FedAfter, PayloadSize, WordOf, Failed;
      var fed;
      ghost var junk, failures;
      fed, junk, failures := HashPayload(binSize);
      var sig: seq<byte> := [];
      seen := Seen(junk, failures, sig);
      if startAddress + size <= |chip.cells| {
        SignatureSlices(chip.cells, startAddress, size, v.sigLen, binSize);
      }
      if v.sigLen > 0 {
        var outOfMemory: bool := *;
        if outOfMemory {
          return OomError, seen;
        }
        sig := ReadSignature(startAddress + binSize, v.sigLen);
      }
      seen := Seen(junk, failures, sig);
      res := if v.check(v.hash(fed), sig) then NoError else SignError;
    }

    /** The signature, or what its buffer held when the read fails. */
    method ReadSignature(address: nat, sigLen: nat) returns (sig: seq<byte>)
      requires chip.Valid() && sigLen > 0
      modifies chip`faults
      ensures chip.faults >= old(chip.faults) && |sig| == sigLen
      ensures address + EspFlash.Aligned(sigLen) <= |chip.cells| ==>
        sig == chip.cells[address..address + sigLen] || chip.faults > old(chip.faults)
    {
      EspFlash.WholeWords(sigLen);
      var read;
      read, sig := EspFlash.FlashRead(chip, address, sigLen, true);
      if !read {
        sig := Uninitialised(sigLen);
      }
    }

    /** The signature branch of end(): NoError and the payload size, or the reason to refuse.
        The code does not look at read failures: chunks that could not be read are hashed as what
        the buffer held before, one for each fault at most. */
    method VerifySignature(v: Verifier) returns (res: Error, binSize: nat, ghost seen: Seen)
      requires chip.Valid() && (size == 0 ==> startAddress == 0)
      modifies chip`faults
      ensures chip.faults >= old(chip.faults) && |seen.junk| == 128 && (res == NoError ==> binSize <= size)
      ensures startAddress + size <= |chip.cells| && res == NoError ==>
        Approved(v, chip.cells[startAddress..startAddress + size], binSize, seen, chip.faults - old(chip.faults))
      ensures chip.faults == old(chip.faults) && startAddress + size <= |chip.cells| ==>
        var image := chip.cells[startAddress..startAddress + size];
        && (res == NoError ==> SignatureHolds(v, image, binSize, seen.junk))
        && (res != NoError ==> res == OomError || SignatureFails(v, image, seen.junk))
    {
      hide WordOf, PayloadSize, SeenOf, Approved, SignatureHolds, SignatureFails;
      var ok;
      ok, binSize := ReadTrailer(v);
      ghost var inRange := startAddress + size <= |chip.cells|;
      ghost var image := if inRange then chip.cells[startAddress..startAddress + size] else [];
      if !ok {
        if inRange && chip.faults == old(chip.faults) {
          FailsWithoutTrailer(v, image, seq(128, _ => 0));
        }
        return SignError, binSize, Seen(seq(128, _ => 0), [], []);
      }
      ghost var faults := chip.faults;
      res, seen := CheckPayload(v, binSize);
      if inRange && res != OomError {
        if chip.faults == old(chip.faults) {
          SeenWithoutFaults(v, image, binSize, seen);
          FailsForOne(v, image, binSize, seen.junk);
        }
        if res == NoError {
          ApprovedMore(v, image, binSize, seen, chip.faults - faults, chip.faults - old(chip.faults));
        }
      }
    }

    /** _verifyEnd: the header that is now in flash. */
    method VerifyEnd() returns (ok: bool)
      requires chip.Valid() && (command == U_FLASH || command == U_FS)
      modifies this, chip`faults
      ensures chip.faults >= old(chip.faults)
      ensures ok ==> unchanged(this)
      ensures !ok ==> Idle() && error != NoError && logStart == old(logStart)
      ensures old(command) == U_FS ==> ok && chip.faults == old(chip.faults)
      ensures old(command) == U_FLASH ==>
        (ok <==>
          && chip.faults == old(chip.faults) && old(startAddress) + 4 <= |chip.cells|
          && HeaderOk(board, chip.cells[old(startAddress)..old(startAddress) + 4]))
    {
      if command == U_FLASH {
        var read, buf := chip.Read(startAddress, 4);
        if !read {
          SetError(ReadError);
          return false;
        }
        if buf[0] == 0x1f && buf[1] == 0x8b {
          return true;
        } else if buf[0] != 0xe9 {
          SetError(MagicByteError);
          return false;
        }
        if !board.flashMap {
          var binFlashSize := FlashSize(buf[3] / 0x10);
          if binFlashSize > board.realSize {
            SetError(NewFlashConfigError);
            return false;
          }
        }
        return true;
      } else if command == U_FS {
        return true;
      }
      return false;
    }

    /** The boot command: copy the image from the staging area to address 0. The words of the
        structure that end() does not set hold whatever was on the stack. */
    method WriteBootCommand(source: u32, length: u32) returns (ghost rest: seq<u32>)
      requires rtc.Length == EC.DW_COUNT
      modifies rtc
      ensures |rest| == 26 && rtc[..] == EC.Stored(EC.ACTION_COPY_RAW, [source, 0, length] + rest)
    {
      var stack: seq<u32> := *;
      var args: seq<u32> := [source, 0, length] + if |stack| >= 26 then stack[..26] else seq(26, _ => 0);
      rest := args[3..];
      var ebcmd := new EC.Command(EC.ACTION_COPY_RAW, args);
      ebcmd.Write(rtc);
      assert args == [source, 0, length] + rest;
    }

    /** All bytes of the session are in flash. */
    ghost predicate Complete()
      reads this, chip, buffer
    {
      && Placed() && IsFinished() && |sent| == size && startAddress + size <= |chip.cells|
      && startAddress < 0x1_0000_0000 && size < 0x1_0000_0000 && error == NoError
      && chip.cells[startAddress..startAddress + size] == Staged(command, mode, sent)
      && (verifier.None? ==> md5 == Hashed(command, mode, sent))
    }

    /** end()'s flush for updates of unknown size. A failed flush goes unnoticed there. */
    method CompleteSession(evenIfRemaining: bool)
      requires Valid() && size > 0 && Progress() > 0 && (IsFinished() || evenIfRemaining)
      modifies this, chip, buffer
      ensures chip.Valid() && chip.faults >= old(chip.faults)
      ensures logStart == old(logStart) <= |chip.log| && StayedInside() && targetMd5 == old(targetMd5)
      ensures (Complete() || Idle()) && (command == U_FLASH || command == U_FS)
      ensures size > 0 ==>
        && Complete() && startAddress == old(startAddress) && command == old(command) && sent == old(sent)
        && mode == old(mode)
        && (!evenIfRemaining ==> size == old(size))
      ensures size == 0 ==>
        && Idle() && error != NoError && evenIfRemaining && old(bufferLen) > 0
        && (chip.faults > old(chip.faults) || old(currentAddress) >= |chip.cells|)
      ensures !evenIfRemaining ==> unchanged(chip) && md5 == old(md5)
    {
      hide Staged, Hashed, Disciplined, BlankFrom, AllOnes, SameOutside, RoundUp, SectorEnd;
      SameEverywhere(chip.cells, startAddress, startAddress + RoundUp(size));
      if evenIfRemaining {
        if bufferLen > 0 {
          var written := WriteBuffer();
        }
        size := Progress();
      }
      assert size > 0 ==> Flushed() == sent;
    }

    /** The digest or signature check of end(): true and the payload size, or an error set. */
    method AcceptPayload() returns (ok: bool, binSize: nat, ghost seen: Seen)
      requires chip.Valid() && (Idle() || Complete())
      modifies this, chip`faults
      ensures chip.faults >= old(chip.faults) && |seen.junk| == 128
      ensures ok ==> unchanged(this) && binSize <= size && (verifier.None? ==> binSize == size)
      ensures ok && verifier.Some? && startAddress + size <= |chip.cells| ==>
        Approved(verifier.value, chip.cells[startAddress..startAddress + size], binSize, seen, chip.faults - old(chip.faults))
      ensures !ok ==> Idle() && error != NoError && logStart == old(logStart)
      ensures verifier.None? ==> chip.faults == old(chip.faults) && (ok <==> Md5Ok(old(targetMd5), digest(old(md5))))
      ensures verifier.Some? && chip.faults == old(chip.faults) && old(startAddress + size) <= |chip.cells| ==>
        var image := chip.cells[old(startAddress)..old(startAddress + size)];
        && (ok ==> SignatureHolds(verifier.value, image, binSize, seen.junk))
        && (!ok ==> error == OomError || SignatureFails(verifier.value, image, seen.junk))
    {
      hide SignatureHolds, SignatureFails, Staged, Hashed, Approved;
      binSize := size;
      seen := Seen(seq(128, _ => 0), [], []);
      if verifier.Some? {
        var res;
        res, binSize, seen := VerifySignature(verifier.value);
        if res != NoError {
          SetError(res);
          Reset();
          return false, binSize, seen;
        }
      } else if targetMd5 != "" {
        FoldExact(targetMd5, digest(md5));
        if !EqualFold(targetMd5, HexString(digest(md5))) {
          SetError(Md5Error);
          return false, binSize, seen;
        }
      }
      ok := true;
    }

    /** The header of the image now in flash passes the last check of end(). */
    twostate predicate HeaderPasses()
      reads this, chip
    {
      old(command) == U_FLASH ==>
        && old(startAddress) + 4 <= |chip.cells|
        && HeaderOk(board, chip.cells[old(startAddress)..old(startAddress) + 4])
    }

    /** end() from the check of the payload on. Either the whole session is in flash, or the
        state is already reset (after a failed flush that end(true) did not notice). */
    method Finish() returns (ok: bool, bin: nat, ghost seen: Seen, ghost rest: seq<u32>)
      requires chip.Valid() && rtc.Length == EC.DW_COUNT && (Idle() || Complete())
      requires command == U_FLASH || command == U_FS
      modifies this, chip`faults, rtc
      ensures chip.faults >= old(chip.faults) && Idle() && |seen.junk| == 128 && |rest| == 26 && bin < 0x1_0000_0000
      ensures logStart == old(logStart)
      ensures ok ==> error == old(error)
      ensures !ok ==> rtc[..] == old(rtc[..]) && error != NoError
      ensures ok ==>
        && (verifier.None? ==> bin == old(size) && Md5Ok(old(targetMd5), digest(old(md5))))
        && (verifier.Some? && chip.faults == old(chip.faults) && old(startAddress + size) <= |chip.cells| ==>
              SignatureHolds(verifier.value, chip.cells[old(startAddress)..old(startAddress + size)], bin, seen.junk))
        && bin <= old(size)
        && (verifier.Some? && old(startAddress + size) <= |chip.cells| ==>
              Approved(verifier.value, chip.cells[old(startAddress)..old(startAddress + size)], bin, seen,
                       chip.faults - old(chip.faults)))
      ensures ok && old(command) == U_FLASH ==>
        && old(startAddress) + 4 <= |chip.cells|
        && HeaderOk(board, chip.cells[old(startAddress)..old(startAddress) + 4])
        && old(startAddress) < 0x1_0000_0000
        && rtc[..] == EC.Stored(EC.ACTION_COPY_RAW, [old(startAddress), 0, bin] + rest)
      ensures ok && old(command) == U_FS ==> rtc[..] == old(rtc[..])
      ensures verifier.None? && chip.faults == old(chip.faults) && Md5Ok(old(targetMd5), digest(old(md5))) && HeaderPasses()
        ==> ok
      ensures verifier.Some? && chip.faults == old(chip.faults) && old(startAddress + size) <= |chip.cells| && !ok ==>
        || error == OomError || !HeaderPasses()
        || SignatureFails(verifier.value, chip.cells[old(startAddress)..old(startAddress + size)], seen.junk)
    {
      hide PayloadSize, VerdictOk, HeaderOk, Md5Ok, Staged, Hashed, Approved;
      rest := seq(26, _ => 0);
      ok, bin, seen := AcceptPayload();
      if !ok {
        bin := 0;
        return;
      }
      ok := VerifyEnd();
      if !ok {
        Reset();
        bin := 0;
        return;
      }
      if command == U_FLASH {
        rest := WriteBootCommand(startAddress, bin);
      }
      Reset();
    }

    /** What a successful end() has established about the bytes sent in the session. */
    twostate predicate Committed(bin: nat, seen: Seen, rest: seq<u32>)
      requires |seen.junk| == 128 && |rest| == 26 && bin < 0x1_0000_0000
      reads this, chip, rtc
    {
      var start, image := old(startAddress), Staged(old(command), old(mode), old(sent));
      && start < 0x1_0000_0000 && start + |image| <= |chip.cells|
      && chip.cells[start..start + |image|] == image
      && (verifier.None? ==>
            bin == |image| && Md5Ok(old(targetMd5), digest(Hashed(old(command), old(mode), old(sent)))))
      && (verifier.Some? ==> Approved(verifier.value, image, bin, seen, chip.faults - old(chip.faults)))
      && (verifier.Some? && chip.faults == old(chip.faults) ==> SignatureHolds(verifier.value, image, bin, seen.junk))
      && (old(command) == U_FLASH && old(sent) != [] && old(sent)[0] != 0x1f ==>
            ModeFor(start, old(header), old(chip.faults) > old(faultsBefore), old(mode)))
      && (old(command) == U_FLASH ==>
            && start + 4 <= |chip.cells| && HeaderOk(board, chip.cells[start..start + 4])
            && rtc[..] == EC.Stored(EC.ACTION_COPY_RAW, [start, 0, bin] + rest))
      && (old(command) != U_FLASH ==> rtc[..] == old(rtc[..]))
    }

    lemma ModeKnown()
      requires Valid() && size > 0 && Progress() > 0
      ensures ModeGiven()
    {
    }

    /** end() for a running session that is complete, or is taken as complete. */
    method EndRunning(evenIfRemaining: bool)
      returns (ok: bool, ghost bin: nat, ghost seen: Seen, ghost rest: seq<u32>)
      requires Valid() && size > 0 && Progress() > 0 && (IsFinished() || evenIfRemaining)
      modifies this, chip, buffer, rtc
      ensures chip.Valid() && Idle() && chip.faults >= old(chip.faults) && logStart == old(logStart) <= |chip.log|
      ensures |seen.junk| == 128 && |rest| == 26 && bin < 0x1_0000_0000
      ensures StayedInside() && (!evenIfRemaining ==> chip.cells == old(chip.cells) && chip.log == old(chip.log))
      ensures !ok ==> rtc[..] == old(rtc[..])
      ensures ok && error == NoError ==> Committed(bin, seen, rest) && (evenIfRemaining || |old(sent)| == old(size))
      ensures ok && error != NoError ==> Unnoticed(evenIfRemaining, rest)
      ensures !evenIfRemaining && verifier.None? && chip.faults == old(chip.faults) ==>
        (ok <== Md5Ok(old(targetMd5), digest(old(md5))) && HeaderPasses())
      ensures !evenIfRemaining && verifier.Some? && chip.faults == old(chip.faults) && !ok ==>
        || error == OomError || !HeaderPasses()
        || SignatureFails(verifier.value, Staged(old(command), old(mode), old(sent)), seen.junk)
    {
      hide Staged, Hashed, Disciplined, SameOutside, RoundUp, HeaderOk, Md5Ok;
      hide SignatureHolds, SignatureFails, Placed, Stored, Orderly, Approved;
      ModeKnown();
      CompleteSession(evenIfRemaining);
      ghost var faults, start, n := chip.faults, startAddress, size;
      ok, bin, seen, rest := Finish();
      if ok && verifier.Some? && start + n <= |chip.cells| {
        ApprovedMore(verifier.value, chip.cells[start..start + n], bin, seen, chip.faults - faults,
                     chip.faults - old(chip.faults));
      }
    }

    /** end(true) after a failed flush: true, yet the error is still set, and the command is a
        no-op copy. */
    twostate predicate Unnoticed(evenIfRemaining: bool, rest: seq<u32>)
      requires |rest| == 26
      reads this, chip, rtc
    {
      && evenIfRemaining && old(bufferLen) > 0
      && (chip.faults > old(chip.faults) || old(currentAddress) >= |chip.cells|)
      && rtc[..] == EC.Stored(EC.ACTION_COPY_RAW, [0, 0, 0] + rest)
    }

    /** end: the only place where the boot command changes, and only when it returns true. */
    method End(evenIfRemaining: bool) returns (ok: bool, ghost bin: nat, ghost seen: Seen, ghost rest: seq<u32>)
      requires Valid()
      modifies this, chip, buffer, rtc
      ensures Valid() && Idle() && chip.faults >= old(chip.faults)
      ensures |seen.junk| == 128 && |rest| == 26 && bin < 0x1_0000_0000
      ensures !ok ==> rtc[..] == old(rtc[..])
      ensures ok ==> old(size) > 0 && old(Progress()) > 0 && (evenIfRemaining || old(IsFinished()))
      // the commit gate
      ensures ok && error == NoError ==> Committed(bin, seen, rest) && (evenIfRemaining || |old(sent)| == old(size))
      ensures ok && error != NoError ==> Unnoticed(evenIfRemaining, rest)
      // without a verifier and without faults, the gate opens exactly when it should
      ensures !evenIfRemaining && verifier.None? && chip.faults == old(chip.faults) ==>
        (ok <==>
          && old(size) > 0 && old(IsFinished())
          && Md5Ok(old(targetMd5), digest(old(md5))) && HeaderPasses())
      // and with one, of a session that is complete, unless memory is short
      ensures !evenIfRemaining && verifier.Some? && chip.faults == old(chip.faults) && old(size) > 0 && old(IsFinished()) ==>
        var image := Staged(old(command), old(mode), old(sent));
        && (ok ==> HeaderPasses() && SignatureHolds(verifier.value, image, bin, seen.junk))
        && (!ok ==> error == OomError || !HeaderPasses() || SignatureFails(verifier.value, image, seen.junk))
      ensures !evenIfRemaining ==> chip.cells == old(chip.cells) && chip.log == old(chip.log)
      ensures old(size) > 0 ==> old(logStart) <= |chip.log| && StayedInside()
    {
      assert size > 0 && IsFinished() && verifier.None? ==> md5 == Hashed(command, mode, sent) by {
        if size > 0 && IsFinished() {
          assert Flushed() == sent;
        }
      }
      hide Staged, Hashed, AllOnes, BlankFrom, SameOutside, RoundUp, SectorEnd, HeaderOk, Md5Ok;
      hide SignatureHolds, SignatureFails, Stored, Approved;
      SameEverywhere(chip.cells, startAddress, startAddress + RoundUp(size));
      bin, seen, rest := 0, Seen(seq(128, _ => 0), [], []), seq(26, _ => 0);
      if size == 0 {
        Reset();
        return false, bin, seen, rest;
      }
      if Progress() == 0 {
        SetError(NoDataError);
      }
      if error != NoError || (!IsFinished() && !evenIfRemaining) {
        Reset();
        return false, bin, seen, rest;
      }
      ok, bin, seen, rest := EndRunning(evenIfRemaining);
    }
  }
}