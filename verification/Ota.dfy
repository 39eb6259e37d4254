// The whole update: stage an image through the updater, restart, and let the boot loader
// copy it over the running sketch.
module Ota {
  import opened Bytes
  import opened FlashChip
  import opened UpdaterSpec
  import Updater
  import Eboot
  import EC = EbootCommand
  import ImageCrc

  function Concat(chunks: seq<seq<byte>>): seq<byte>
    decreases |chunks|
  {
    if chunks == [] then [] else Concat(chunks[..|chunks| - 1]) + chunks[|chunks| - 1]
  }

  lemma {:induction false} ConcatGrows(chunks: seq<seq<byte>>, k: nat)
    requires k <= |chunks|
    ensures |Concat(chunks[..k])| <= |Concat(chunks)|
    decreases |chunks|
  {
    if k < |chunks| {
      ConcatGrows(chunks[..|chunks| - 1], k);
      assert chunks[..|chunks| - 1][..k] == chunks[..k];
    } else {
      assert chunks[..k] == chunks;
    }
  }

  /** Flash from address 0 holds the image, except for byte 2, the flash mode: that stays as it is
      when it means the same as `own`, the byte in the header of the sketch that did the update,
      and is else replaced by what that means. Bytes above 3 all mean "unknown", written 0xff. */
  ghost predicate Installed(own: byte, cells: seq<byte>, image: seq<byte>) {
    && |image| <= |cells| && (forall i :: 0 <= i < |image| && i != 2 ==> cells[i] == image[i])
    && (|image| > 2 ==>
          var chips, images := if own > 3 then 0xff else own, if image[2] > 3 then 0xff else image[2];
          cells[2] == if image[0] == 0x1f || images == chips then image[2] else chips)
  }

  ghost predicate InstalledAs(mode: byte, cells: seq<byte>, image: seq<byte>) {
    |image| <= |cells| && cells[..|image|] == Staged(U_FLASH, mode, image)
  }

  lemma InstalledMeans(mode: byte, own: byte, cells: seq<byte>, image: seq<byte>)
    requires InstalledAs(mode, cells, image) && image != [] && (image[0] != 0x1f ==> mode == if own > 3 then 0xff else own)
    ensures Installed(own, cells, image)
  {
    assert forall i :: 0 <= i < |image| ==> cells[i] == cells[..|image|][i];
  }

  /** The header byte that counts: what byte 2 of the flash holds, unless the image is staged from
      address 0 on, which erases it first. */
  function OwnMode(board: Board, cells: seq<byte>, image: seq<byte>): byte
    requires |image| < 0x1_0000_0000
  {
    if UpdateStart(board, |image|, U_FLASH) == Some(0) || |cells| <= 2 then 0xff else cells[2]
  }

  /** The boot loader's copy of a committed image installs it. */
  lemma CopyInstalls(mode: byte, staged: seq<byte>, cells: seq<byte>, start: nat, image: seq<byte>)
    requires 0 < |image| <= 0x7fff_f000 && start + |image| <= |staged|
    requires staged[start..start + |image|] == Staged(U_FLASH, mode, image)
    requires Eboot.CopyDone(staged, cells, start, 0, Eboot.Sectors(|image|), false)
    ensures InstalledAs(mode, cells, image)
  {
    hide Eboot.Sectors, Eboot.SignedLeft, Eboot.Copied, RoundUp, Rounded32, FlashChip.SameOutside, Staged;
    var n := Eboot.Sectors(|image|);
    Eboot.SectorsExact(|image|);
    RoundUpBounds(|image|);
    Eboot.CopiedMoves(staged, start, 0, n);
    ImageArrives(staged, cells, start, |image|, n * 0x1000);
  }

  lemma ImageArrives(staged: seq<byte>, cells: seq<byte>, start: nat, size: nat, len: nat)
    requires size <= len && start + len <= |staged| && len <= |cells| && cells[0..len] == staged[start..start + len]
    ensures cells[..size] == staged[start..start + size]
  {
    forall i | 0 <= i < size ensures cells[i] == staged[start + i] {
      assert cells[i] == cells[0..len][i] == staged[start..start + len][i];
    }
  }

  /** The words the boot loader reads back from a committed update. */
  lemma CommandOfUpdate(start: u32, length: u32, rest: seq<u32>)
    requires |rest| == 26
    ensures var w := EC.Stored(EC.ACTION_COPY_RAW, [start, 0, length] + rest);
      EC.Accepted(w) && w[1] == EC.ACTION_COPY_RAW && w[2] == start && w[3] == 0 && w[4] == length
  {
    var args := [start, 0, length] + rest;
    var w := EC.Stored(EC.ACTION_COPY_RAW, args);
    EC.StoredIsAccepted(EC.ACTION_COPY_RAW, args);
    assert w[2] == w[2..31][0] && w[3] == w[2..31][1] && w[4] == w[2..31][2];
  }

  /** No digest is expected, or it spells out the one of the bytes hashed. */
  predicate DigestOk(u: Updater.UpdaterClass, md5: string, mode: byte, image: seq<byte>) {
    Md5Ok(md5, u.digest(Hashed(U_FLASH, mode, image)))
  }

  lemma MalformedDigest(u: Updater.UpdaterClass, md5: string, mode: byte, image: seq<byte>)
    requires md5 != "" && |md5| != 32
    ensures !DigestOk(u, md5, mode, image)
  {
  }

  /** For images that are not patched the mode does not matter. */
  lemma SameDigest(u: Updater.UpdaterClass, md5: string, a: byte, b: byte, image: seq<byte>)
    requires image != [] && (image[0] != 0x1f ==> a == b)
    ensures DigestOk(u, md5, a, image) == DigestOk(u, md5, b, image)
  {
  }

  /** Expect a digest, if there is one; give the session up when it is refused. */
  method Expect(u: Updater.UpdaterClass, md5: string) returns (ok: bool)
    requires u.Valid() && u.size > 0 && u.command == U_FLASH && u.targetMd5 == "" && u.sent == []
    modifies u, u.chip, u.buffer, u.rtc
    ensures u.Valid() && u.chip.faults >= old(u.chip.faults) && u.chip.cells == old(u.chip.cells)
    ensures ok <==> md5 == "" || |md5| == 32
    ensures ok ==>
      && u.targetMd5 == md5 && u.size == old(u.size) && u.command == U_FLASH && u.sent == [] && u.buffer == old(u.buffer)
      && u.startAddress == old(u.startAddress) && u.chip.faults == old(u.chip.faults)
      && u.header == old(u.header) && u.faultsBefore == old(u.faultsBefore)
    ensures !ok ==> u.Idle()
    ensures u.rtc[..] == old(u.rtc[..])
  {
    hide UpdaterSpec.Disciplined, UpdaterSpec.Staged, UpdaterSpec.Hashed, EC.Stored, HeaderOk, SignatureHolds;
    ok := true;
    if md5 != "" {
      ok := u.SetMd5(md5);
      if !ok {
        ghost var bin, seen, rest;
        var ended: bool;
        ended, bin, seen, rest := u.End(false);
      }
    }
  }

  /** Send an image in any pieces, with the digest it should have or none, and end the update.
      When that succeeds the image is staged and the boot loader's command names it. */
  method Stage(u: Updater.UpdaterClass, chunks: seq<seq<byte>>, md5: string, heapLarge: bool, outOfMemory: bool)
    returns (done: bool, ghost start: u32, ghost rest: seq<u32>, ghost mode: byte)
    requires u.Valid() && u.size == 0 && u.verifier.None?
    requires 0 < |Concat(chunks)| < 0x1_0000_0000
    requires forall i :: 0 <= i < |chunks| ==> chunks[i] != []
    modifies u, u.chip, u.rtc
    ensures u.Valid() && u.Idle() && u.chip.faults >= old(u.chip.faults) && |rest| == 26
    ensures |u.chip.cells| == |old(u.chip.cells)|
    ensures done ==> IsStaged(mode, u.chip.cells, start, Concat(chunks)) && start + 4 <= |u.chip.cells|
    ensures done ==> u.rtc[..] == EC.Stored(EC.ACTION_COPY_RAW, [start, 0, |Concat(chunks)|] + rest)
    ensures done ==> start % 0x1000 == 0
    ensures !done ==> u.rtc[..] == old(u.rtc[..])
    ensures done ==> DigestOk(u, md5, mode, Concat(chunks))
    // the mode that the image is given
    ensures done && Concat(chunks)[0] != 0x1f ==>
      var own := OwnMode(u.board, old(u.chip.cells), Concat(chunks));
      mode == (if own > 3 then 0xff else own) || (mode == 0xff && u.chip.faults > old(u.chip.faults))
    ensures u.chip.faults == old(u.chip.faults) && !outOfMemory && Updatable(u.board, |u.chip.cells|, Concat(chunks))
      ==> (done <==> DigestOk(u, md5, Mode(OwnMode(u.board, old(u.chip.cells), Concat(chunks))), Concat(chunks)))
    ensures done ==> UpdateStart(u.board, |Concat(chunks)|, U_FLASH) == Some(start)
  {
    hide UpdaterSpec.UpdateStart, UpdaterSpec.Disciplined, UpdaterSpec.Staged, UpdaterSpec.Hashed, EC.Stored, HeaderOk;
    hide SignatureHolds, Md5Ok, RoundUp, FlashChip.SameOutside, DigestOk, OwnMode;
    done, start, rest, mode := false, 0, seq(26, _ => 0), 0;
    ghost var image := Concat(chunks);
    var ok := u.Begin(|Concat(chunks)|, U_FLASH, 0, true, heapLarge, outOfMemory);
    if !ok {
      return;
    }
    start := u.startAddress;
    RoundUpBounds(|image|);
    ok := Expect(u, md5);
    if !ok {
      MalformedDigest(u, md5, Mode(OwnMode(u.board, old(u.chip.cells), image)), image);
      return;
    }
    ok := WriteAll(u, chunks);
    if !ok {
      return;
    }
    mode := u.mode;
    SessionMode(u);
    OwnModeIs(u.board, old(u.chip.cells), image, start);
    ghost var faults := u.chip.faults;
    done, rest := EndAll(u, image);
    if faults == old(u.chip.faults) {
      SameDigest(u, md5, mode, Mode(OwnMode(u.board, old(u.chip.cells), image)), image);
    }
  }

  lemma OwnModeIs(board: Board, cells: seq<byte>, image: seq<byte>, start: nat)
    requires |image| < 0x1_0000_0000 && UpdateStart(board, |image|, U_FLASH) == Some(start)
    requires |cells| % 0x1000 == 0 && start + |image| <= |cells| && image != []
    ensures |cells| > 2 && OwnMode(board, cells, image) == if start == 0 then 0xff else cells[2]
  {
  }

  /** What a session in which everything was sent has found out about the mode. */
  lemma SessionMode(u: Updater.UpdaterClass)
    requires u.Valid() && u.size > 0 && |u.sent| == u.size && u.command == U_FLASH
    ensures u.sent != [] && u.IsFinished() && u.startAddress + u.size <= |u.chip.cells|
    ensures u.sent[0] != 0x1f ==>
      if u.startAddress == 0 then u.mode == 0xff
      else u.mode == Mode(u.header) || (u.mode == 0xff && u.chip.faults > u.faultsBefore)
  {
  }

  /** end(false) of a session that has sent the whole image. */
  method EndAll(u: Updater.UpdaterClass, ghost image: seq<byte>) returns (done: bool, ghost rest: seq<u32>)
    requires u.Valid() && u.verifier.None? && u.command == U_FLASH && (u.targetMd5 == "" || |u.targetMd5| == 32)
    requires 0 < |image| < 0x1_0000_0000 && u.size == |image| && u.sent == image
    modifies u, u.chip, u.buffer, u.rtc
    ensures u.Valid() && u.Idle() && u.chip.faults >= old(u.chip.faults) && |rest| == 26
    ensures |u.chip.cells| == |old(u.chip.cells)|
    ensures done ==>
      && IsStaged(old(u.mode), u.chip.cells, old(u.startAddress), image)
      && old(u.startAddress) + 4 <= |u.chip.cells| && old(u.startAddress) < 0x1_0000_0000
      && u.rtc[..] == EC.Stored(EC.ACTION_COPY_RAW, [old(u.startAddress), 0, |image|] + rest)
    ensures !done ==> u.rtc[..] == old(u.rtc[..])
    ensures done ==> DigestOk(u, old(u.targetMd5), old(u.mode), image)
    ensures u.chip.faults == old(u.chip.faults) && |image| >= 4 && HeaderOk(u.board, image[..4]) ==>
      (done <==> DigestOk(u, old(u.targetMd5), old(u.mode), image))
  {
    hide UpdaterSpec.Disciplined, UpdaterSpec.Staged, UpdaterSpec.Hashed, EC.Stored, HeaderOk;
    hide SignatureHolds, EqualFold, RoundUp, SectorEnd, FlashChip.SameOutside;
    assert u.Flushed() == image;
    ghost var bin, seen;
    if |image| >= 4 && HeaderOk(u.board, image[..4]) {
      StagedHeader(u.board, u.mode, image, u.chip.cells, u.startAddress);
    }
    done, bin, seen, rest := u.End(false);
  }

  /** The board takes the image: begin finds room for it and its header names a flash size the
      chip has. */
  predicate Updatable(board: Board, chipSize: nat, image: seq<byte>)
    requires |image| < 0x1_0000_0000
  {
    && |image| >= 4 && UpdateStart(board, |image|, U_FLASH).Some? && HeaderOk(board, image[..4])
    && UpdateStart(board, |image|, U_FLASH).value + RoundUp(|image|) <= chipSize
  }

  lemma StagedHeader(board: Board, mode: byte, image: seq<byte>, cells: seq<byte>, start: nat)
    requires 4 <= |image| && start + |image| <= |cells| && HeaderOk(board, image[..4])
    requires cells[start..start + |image|] == Staged(U_FLASH, mode, image)
    ensures HeaderOk(board, cells[start..start + 4])
  {
    var staged := Staged(U_FLASH, mode, image);
    var header := cells[start..start + 4];
    forall i | 0 <= i < 4 ensures header[i] == staged[i] {
      assert header[i] == cells[start + i] == cells[start..start + |image|][i];
    }
    assert header[0] == staged[0] && header[1] == staged[1] && header[3] == staged[3];
    assert image[..4][0] == image[0] && image[..4][1] == image[1] && image[..4][3] == image[3];
  }

  ghost predicate IsStaged(mode: byte, cells: seq<byte>, start: nat, image: seq<byte>) {
    start + |image| <= |cells| && cells[start..start + |image|] == Staged(U_FLASH, mode, image)
  }

  /** Restart into the boot loader with the command of an update. */
  method Boot(chip: Chip, rtc: array<u32>, ghost mode: byte, ghost start: u32, ghost image: seq<byte>, ghost rest: seq<u32>)
    returns (started: Option<u32>, res: int)
    requires chip.Valid() && rtc.Length == EC.DW_COUNT && |rest| == 26
    requires 0 < |image| < 0x1_0000_0000 && image[0] == 0xe9 && start + |image| <= |chip.cells|
    requires start + 4 <= |chip.cells|
    requires rtc[..] == EC.Stored(EC.ACTION_COPY_RAW, [start, 0, |image|] + rest)
    modifies chip, rtc
    ensures chip.Valid() && chip.faults >= old(chip.faults) && !EC.Accepted(rtc[..])
    ensures |chip.cells| == |old(chip.cells)|
    ensures old(IsStaged(mode, chip.cells, start, image)) && chip.faults == old(chip.faults) ==>
      && (res == 0 ==> InstalledAs(mode, chip.cells, image) && started == Some(0))
      && (start % 0x1000 == 0 && start + RoundUp(|image|) <= |chip.cells| ==> res == 0)
  {
    hide InstalledAs, Staged, EC.Stored, EC.Accepted, Eboot.CopyDone, FlashChip.SameOutside, Eboot.Sectors, RoundUp;
    Eboot.SectorsExact(|image|);
    CommandOfUpdate(start, |image|, rest);
    if IsStaged(mode, chip.cells, start, image) {
      StagedStarts(mode, chip.cells, start, image);
    }
    ghost var cells, raw := chip.cells, true;
    started, res, raw := Eboot.BootMain(chip, rtc);
    if res == 0 && chip.faults == old(chip.faults) && IsStaged(mode, cells, start, image) {
      CopyInstalls(mode, cells, chip.cells, start, image);
    }
  }

  lemma StagedStarts(mode: byte, cells: seq<byte>, start: nat, image: seq<byte>)
    requires 0 < |image| && image[0] == 0xe9 && IsStaged(mode, cells, start, image)
    ensures !Eboot.GzipAt(cells, start) && start + |image| <= |cells|
  {
    assert cells[start..start + |image|][0] == cells[start];
  }

  /** Two copies of the image fit below the file system, so that the staged one is out of the way
      of the running one. */
  predicate Roomy(board: Board, image: seq<byte>) {
    2 * RoundUp(|image|) <= board.FsAddr()
  }

  /** Where a staged image ends, and whether it is out of the way. */
  lemma StagedFits(board: Board, mode: byte, cells: seq<byte>, start: u32, image: seq<byte>)
    requires 0 < |image| < 0x1_0000_0000 && |cells| % 0x1000 == 0 && IsStaged(mode, cells, start, image)
    requires start % 0x1000 == 0 && UpdateStart(board, |image|, U_FLASH) == Some(start) && |cells| < 0x8000_0000
    ensures start + |image| <= |cells| && start + RoundUp(|image|) <= |cells|
    ensures Roomy(board, image) ==> RoundUp(|image|) <= start
  {
    hide RoundUp, Rounded32, Staged;
    RoundUpBounds(|image|);
    Rounded32Exact(|image|);
    MultiplesApart(start, RoundUp(|image|), |cells|);
  }

  lemma MultiplesApart(a: nat, b: nat, c: nat)
    requires a % 0x1000 == 0 && b % 0x1000 == 0 && c % 0x1000 == 0 && a + b < c + 0x1000
    ensures a + b <= c
  {
    var i, j, k := a / 0x1000, b / 0x1000, c / 0x1000;
    assert a == 0x1000 * i && b == 0x1000 * j && c == 0x1000 * k;
  }

  /** A staged image survives a boot that is cut. */
  lemma CutKeepsStaged(mode: byte, before: seq<byte>, after: seq<byte>, start: nat, image: seq<byte>)
    requires |after| == |before| && 0 < |image| <= 0x7fff_f000 && IsStaged(mode, before, start, image)
    requires RoundUp(|image|) <= start && start + RoundUp(|image|) <= |before|
    requires start + Eboot.Sectors(|image|) * 0x1000 <= |before| && Eboot.Sectors(|image|) * 0x1000 <= |before|
    requires Eboot.CutShort(before, after, start, 0, Eboot.Sectors(|image|))
    ensures IsStaged(mode, after, start, image)
  {
    hide Eboot.CutShort, Staged, Eboot.Sectors, Eboot.SignedLeft;
    Eboot.SectorsExact(|image|);
    Eboot.CutStaysInTarget(before, after, start, 0, Eboot.Sectors(|image|));
    var a, b := after[start..start + |image|], before[start..start + |image|];
    forall i | 0 <= i < |image| ensures a[i] == b[i] {
      assert after[start + i] == before[start + i];
    }
  }

  /** Boots that are cut in the middle of the copy, any number of them: the image stays staged
      as long as it is out of the way, and the command stays in RTC memory. */
  method CutBoots(chip: Chip, rtc: array<u32>, cuts: nat, ghost mode: byte, ghost start: u32, ghost image: seq<byte>,
                  ghost rest: seq<u32>)
    requires chip.Valid() && rtc.Length == EC.DW_COUNT && |rest| == 26
    requires 0 < |image| < 0x1_0000_0000 && image[0] == 0xe9 && IsStaged(mode, chip.cells, start, image)
    requires rtc[..] == EC.Stored(EC.ACTION_COPY_RAW, [start, 0, |image|] + rest)
    requires start + RoundUp(|image|) <= |chip.cells|
    modifies chip
    ensures chip.Valid() && chip.faults >= old(chip.faults) && |chip.cells| == |old(chip.cells)|
    ensures cuts == 0 ==> chip.cells == old(chip.cells) && chip.faults == old(chip.faults)
    ensures chip.faults == old(chip.faults) && RoundUp(|image|) <= start ==> IsStaged(mode, chip.cells, start, image)
  {
    hide IsStaged, Staged, EC.Stored, EC.Accepted, Eboot.CutShort, Eboot.Sectors, RoundUp, Eboot.GzipAt;
    RoundUpBounds(|image|);
    Eboot.SectorsExact(|image|);
    CommandOfUpdate(start, |image|, rest);
    var k := 0;
    while k < cuts
      invariant 0 <= k <= cuts && chip.Valid() && chip.faults >= old(chip.faults) && |chip.cells| == |old(chip.cells)|
      invariant chip.faults == old(chip.faults) && RoundUp(|image|) <= start ==> IsStaged(mode, chip.cells, start, image)
      invariant k == 0 ==> chip.cells == old(chip.cells) && chip.faults == old(chip.faults)
    {
      ghost var before, faults := chip.cells, chip.faults;
      Eboot.CutBoot(chip, rtc);
      if chip.faults == old(chip.faults) && RoundUp(|image|) <= start {
        StagedStarts(mode, before, start, image);
        if chip.cells != before {
          CutKeepsStaged(mode, before, chip.cells, start, image);
        }
      }
      k := k + 1;
    }
  }

  /** Send an image in any pieces, end the update, and boot; any number of boots may be cut by a
      power failure in the middle of the copy before one comes to its end. */
  method UpdateAndBoot(u: Updater.UpdaterClass, chunks: seq<seq<byte>>, md5: string, heapLarge: bool, outOfMemory: bool,
                       cuts: nat)
    returns (done: bool, started: Option<u32>, res: int)
    requires u.Valid() && u.size == 0 && u.verifier.None?
    requires 0 < |Concat(chunks)| < 0x1_0000_0000 && Concat(chunks)[0] == 0xe9
    requires forall i :: 0 <= i < |chunks| ==> chunks[i] != []
    modifies u, u.chip, u.rtc
    ensures u.Valid() && u.chip.faults >= old(u.chip.faults)
    ensures done && res == 0 && u.chip.faults == old(u.chip.faults) && (cuts == 0 || Roomy(u.board, Concat(chunks))) ==>
      Installed(OwnMode(u.board, old(u.chip.cells), Concat(chunks)), u.chip.cells, Concat(chunks)) && started == Some(0)
    ensures
      && u.chip.faults == old(u.chip.faults) && !outOfMemory
      && Updatable(u.board, |old(u.chip.cells)|, Concat(chunks)) && (cuts == 0 || Roomy(u.board, Concat(chunks)))
      && DigestOk(u, md5, Mode(OwnMode(u.board, old(u.chip.cells), Concat(chunks))), Concat(chunks))
      ==> done && res == 0
    ensures done && u.chip.faults == old(u.chip.faults) ==>
      DigestOk(u, md5, Mode(OwnMode(u.board, old(u.chip.cells), Concat(chunks))), Concat(chunks))
    ensures done ==> !EC.Accepted(u.rtc[..])
    ensures !done ==> u.rtc[..] == old(u.rtc[..])
  {
    hide Installed, InstalledAs, IsStaged, EC.Stored, EC.Accepted, RoundUp, UpdateStart, Roomy, Concat, DigestOk, OwnMode;
    ghost var start, rest, mode;
    ghost var own := OwnMode(u.board, u.chip.cells, Concat(chunks));
    started, res := None, 9;
    done, start, rest, mode := Stage(u, chunks, md5, heapLarge, outOfMemory);
    if done {
      StagedFits(u.board, mode, u.chip.cells, start, Concat(chunks));
      CutBoots(u.chip, u.rtc, cuts, mode, start, Concat(chunks), rest);
      started, res := Boot(u.chip, u.rtc, mode, start, Concat(chunks), rest);
      if InstalledAs(mode, u.chip.cells, Concat(chunks)) && u.chip.faults == old(u.chip.faults) {
        InstalledMeans(mode, own, u.chip.cells, Concat(chunks));
      }
    }
  }

  method WriteAll(u: Updater.UpdaterClass, chunks: seq<seq<byte>>) returns (ok: bool)
    requires u.Valid() && u.size > 0 && u.sent == [] && |Concat(chunks)| == u.size && u.command == U_FLASH
    requires forall i :: 0 <= i < |chunks| ==> chunks[i] != []
    modifies u, u.chip, u.buffer
    ensures u.Valid() && u.chip.faults >= old(u.chip.faults)
    ensures ok ==> u.size == old(u.size) && u.command == U_FLASH && u.sent == Concat(chunks)
    ensures !ok ==> u.Idle()
    ensures u.chip.faults == old(u.chip.faults) && old(u.startAddress) + old(u.size) <= |u.chip.cells| ==> ok
    ensures |u.chip.cells| == |old(u.chip.cells)|
    ensures ok ==> u.targetMd5 == old(u.targetMd5) && u.buffer == old(u.buffer) && u.startAddress == old(u.startAddress)
    ensures ok ==> u.header == old(u.header) && u.faultsBefore == old(u.faultsBefore)
  {
    var k := 0;
    while k < |chunks|
      invariant 0 <= k <= |chunks| && u.Valid() && u.buffer == old(u.buffer)
      invariant u.chip.faults >= old(u.chip.faults) && u.startAddress == old(u.startAddress)
      invariant u.header == old(u.header) && u.faultsBefore == old(u.faultsBefore)
      invariant u.targetMd5 == old(u.targetMd5) && |u.chip.cells| == |old(u.chip.cells)|
      invariant u.size == old(u.size) && u.command == U_FLASH && u.sent == Concat(chunks[..k])
    {
      assert chunks[..k + 1][..k] == chunks[..k];
      ConcatGrows(chunks, k + 1);
      var n := u.Write(chunks[k]);
      if n != |chunks[k]| {
        return false;
      }
      k := k + 1;
    }
    assert chunks[..k] == chunks;
    ok := true;
  }

  /** An update of this board survives restarts in the middle of the copy exactly when two
      images fit below the file system. */
  lemma UpdateRestartable(board: Board, size: u32, chipSize: nat)
    requires board.Valid() && 0 < size <= 0x7fff_f000 && Rounded32(board.sketchSize) > 0 && board.FsAddr() <= chipSize
    requires UpdateStart(board, size, U_FLASH).Some?
    ensures var start, n := UpdateStart(board, size, U_FLASH).value, Eboot.Sectors(size);
      && start % 0x1000 == 0 && start + n * 0x1000 == board.FsAddr()
      && (Eboot.Restartable(chipSize, start / 0x1000, 0, n) <==> 2 * RoundUp(size) <= board.FsAddr())
  {
    var start, n := UpdateStart(board, size, U_FLASH).value, Eboot.Sectors(size);
    Rounded32Exact(size);
    RoundUpBounds(size);
    UpdateStartAligned(board, size, U_FLASH);
    Eboot.SectorsExact(size);
    assert start == start / 0x1000 * 0x1000;
    Eboot.RestartableExact(chipSize, start / 0x1000, 0, n);
  }

  /** After an update with an image from elf2bin, the device's own check of its flash passes
      exactly when the mode byte did not have to be patched. */
  lemma InstalledChecks(own: byte, cells: seq<byte>, raw: seq<byte>)
    requires 4120 <= |raw| < 0x1_0000_0000 && raw[0] != 0x1f && Installed(own, cells, ImageCrc.WithCrc(raw))
    ensures ImageCrc.LengthWord(cells) == |raw|
    ensures ImageCrc.Checks(cells) <==> raw[2] == own || (raw[2] > 3 && own > 3)
  {
    hide ImageCrc.Checks, ImageCrc.LengthWord;
    var image := ImageCrc.WithCrc(raw);
    assert image[0] == raw[0] && image[2] == raw[2];
    var flash := image + cells[|raw|..];
    assert image <= flash;
    ImageCrc.BuiltImagePasses(raw, flash);
    if raw[2] == own || (raw[2] > 3 && own > 3) {
      assert cells == flash;
    } else {
      var mode: byte := if own > 3 then 0xff else own;
      assert cells == flash[2 := mode];
      ImageCrc.ByteNoticed(flash, 2, mode);
    }
  }
}
