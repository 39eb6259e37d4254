// What an update session is meant to do: where it may write, in which order, what it leaves
// in flash, and what it hashes. The session itself is the class in Updater.dfy.
module UpdaterSpec {
  import opened Bytes
  import opened FlashChip
  import EspFlash

  const U_FLASH := 0
  const U_FS := 100

  datatype Error =
    | NoError | WriteError | EraseError | ReadError | SpaceError | SizeError | StreamError | Md5Error
    | FlashConfigError | NewFlashConfigError | MagicByteError | BootstrapError | NoDataError | OomError | SignError

  /** An installed signature check: the signature length it expects, its hash function and
      its test of a hash against a signature. */
  datatype Verifier = Verifier(sigLen: u32, hash: seq<byte> -> seq<byte>, check: (seq<byte>, seq<byte>) -> bool)

  // ----- where the image is staged -----

  function RoundUp(n: nat): nat {
    (n + 0x1000 - 1) / 0x1000 * 0x1000
  }

  /** The same rounding in 32-bit arithmetic: (n + 4095) & ~4095. */
  function Rounded32(n: u32): u32 {
    (n + 0x1000 - 1) % 0x1_0000_0000 / 0x1000 * 0x1000
  }

  /** The fixed facts about the device: linker symbols, the size of the running sketch, and the
      chip size. */
  datatype Board = Board(fsStart: u32, fsEnd: u32, sketchSize: u32, realSize: u32, flashMap: bool)
  {
    /** FS_start - 0x40200000 in 32-bit arithmetic. */
    function FsAddr(): u32 {
      (fsStart - 0x4020_0000) % 0x1_0000_0000
    }

    /** The file system starts on a sector boundary. */
    predicate Valid() {
      FsAddr() % 0x1000 == 0
    }
  }

  /** The start address begin() picks, or None when it refuses the size or the command. */
  function UpdateStart(board: Board, size: u32, command: int): Option<u32> {
    if command == U_FLASH then
      var start := if board.FsAddr() > Rounded32(size) then board.FsAddr() - Rounded32(size) else 0;
      if start < Rounded32(board.sketchSize) then None else Some(start)
    else if command == U_FS then
      if (board.fsStart + Rounded32(size)) % 0x1_0000_0000 > board.fsEnd then None else Some(board.FsAddr())
    else None
  }

  /** The staging area lies above the running sketch and below the file system. */
  predicate WindowSafe(board: Board, size: u32, start: nat) {
    Rounded32(board.sketchSize) <= start && start + RoundUp(size) <= board.FsAddr()
  }

  lemma RoundUpBounds(n: nat)
    ensures n <= RoundUp(n) < n + 0x1000 && RoundUp(n) % 0x1000 == 0
    ensures n % 0x1000 == 0 ==> RoundUp(n) == n
  {
  }

  lemma Rounded32Exact(n: u32)
    ensures Rounded32(n) == if n <= 0xffff_f000 then RoundUp(n) else 0
  {
    if n > 0xffff_f000 {
      assert (n + 0x1000 - 1) % 0x1_0000_0000 == n + 0x1000 - 1 - 0x1_0000_0000;
    }
  }

  lemma UpdateStartAligned(board: Board, size: u32, command: int)
    requires board.Valid() && UpdateStart(board, size, command).Some?
    ensures UpdateStart(board, size, command).value % 0x1000 == 0 && (command == U_FLASH || command == U_FS)
  {
    hide RoundUp, Rounded32;
    RoundUpBounds(size);
    Rounded32Exact(size);
    DifferenceAligned(board.FsAddr(), Rounded32(size));
  }

  lemma DifferenceAligned(a: nat, b: nat)
    requires a % 0x1000 == 0 && b % 0x1000 == 0
    ensures (a - b) % 0x1000 == 0
  {
  }

  /** begin() accepts only safe staging areas exactly when the rounded size does not wrap
      around and the sketch size is known (or the update fits anyway). */
  lemma BeginWindowExact(board: Board, size: u32)
    requires size > 0 && UpdateStart(board, size, U_FLASH).Some?
    ensures WindowSafe(board, size, UpdateStart(board, size, U_FLASH).value)
            <==> size <= 0xffff_f000 && (Rounded32(board.sketchSize) > 0 || RoundUp(size) <= board.FsAddr())
  {
    Rounded32Exact(size);
    RoundUpBounds(size);
  }

  /** Which updates begin() has room for, and where they go: a sketch right below the file system,
      if it stays above the running one; a file system over the old one, if it ends before the new
      one would. */
  lemma UpdateStartExact(board: Board, size: u32)
    requires 0 < size <= 0xffff_f000 && 0 < board.sketchSize <= 0xffff_f000
    ensures UpdateStart(board, size, U_FLASH)
            == if RoundUp(board.sketchSize) + RoundUp(size) <= board.FsAddr() then Some(board.FsAddr() - RoundUp(size)) else None
    ensures board.fsStart + RoundUp(size) < 0x1_0000_0000 ==>
      UpdateStart(board, size, U_FS)
      == if board.fsStart + RoundUp(size) <= board.fsEnd then Some((board.fsStart - 0x4020_0000) % 0x1_0000_0000) else None
  {
    hide RoundUp, Rounded32;
    Rounded32Exact(size);
    Rounded32Exact(board.sketchSize);
    RoundUpBounds(size);
    RoundUpBounds(board.sketchSize);
  }

  /** A size in the last 4095 values wraps to 0, and the session would start on the file
      system itself. */
  lemma BeginWindowWraps(board: Board)
    requires board.sketchSize <= 0xffff_f000 && RoundUp(board.sketchSize) <= board.FsAddr() && board.FsAddr() > 0
    ensures UpdateStart(board, 0xffff_ffff, U_FLASH) == Some(board.FsAddr())
    ensures !WindowSafe(board, 0xffff_ffff, board.FsAddr())
  {
    Rounded32Exact(0xffff_ffff);
    Rounded32Exact(board.sketchSize);
    RoundUpBounds(0xffff_ffff);
  }

  // ----- what the session leaves in flash, and what it hashes -----

  /** magicFlashChipMode: 0..3 are modes, anything else is FM_UNKNOWN. */
  function Mode(b: byte): byte {
    if b > 3 then 0xff else b
  }

  /** The flash mode that is found when a session stages an image from `start` on, over a flash
      with this byte 2: FM_UNKNOWN when that byte was just erased, or could not be read. */
  predicate ModeFor(start: nat, own: byte, faulted: bool, mode: byte) {
    if start == 0 then mode == 0xff
    else mode == (if own > 3 then 0xff else own) || (faulted && mode == 0xff)
  }

  lemma ModeForMore(start: nat, own: byte, faulted: bool, more: bool, mode: byte)
    requires faulted ==> more
    ensures ModeFor(start, own, faulted, mode) ==> ModeFor(start, own, more, mode)
  {
  }

  lemma ModeAtZero(start: nat, own: byte, other: byte, faulted: bool, mode: byte)
    ensures start == 0 ==> (ModeFor(start, own, faulted, mode) <==> ModeFor(start, other, faulted, mode))
  {
  }

  /** The header's mode byte is replaced by the chip's mode on the way to flash. */
  predicate Patches(command: int, mode: byte, data: seq<byte>) {
    |data| > 2 && command == U_FLASH && data[0] != 0x1f && Mode(data[2]) != mode
  }

  /** The bytes in flash after data was written. */
  function Staged(command: int, mode: byte, data: seq<byte>): (r: seq<byte>)
    ensures |r| == |data|
  {
    if Patches(command, mode, data) then data[2 := mode] else data
  }

  /** The bytes that went into the MD5: the patched byte is restored to its decoded mode. */
  function Hashed(command: int, mode: byte, data: seq<byte>): (r: seq<byte>)
    ensures |r| == |data|
  {
    if Patches(command, mode, data) then data[2 := Mode(data[2])] else data
  }

  /** The MD5 covers exactly the bytes sent unless a mode byte outside 0..3 was patched. */
  lemma HashedIsSent(command: int, mode: byte, data: seq<byte>)
    ensures Hashed(command, mode, data) == data
            <==> !(Patches(command, mode, data) && 3 < data[2] < 0xff)
  {
    if Patches(command, mode, data) {
      assert Hashed(command, mode, data)[2] == Mode(data[2]);
      assert data[2] == Mode(data[2]) ==> data[2 := Mode(data[2])] == data;
    }
  }

  /** Only the first buffer is patched. */
  lemma StagedMore(command: int, mode: byte, data: seq<byte>, more: seq<byte>)
    requires |data| >= 3
    ensures Staged(command, mode, data + more) == Staged(command, mode, data) + more
    ensures Hashed(command, mode, data + more) == Hashed(command, mode, data) + more
  {
  }

  // ----- the order of erasing and programming -----

  /** What a flush at an address erases. */
  function EraseAt(address: nat): seq<Op> {
    if address % 0x1000 == 0 then [Erase(address / 0x1000)] else []
  }

  predicate Covers(op: Op, a: int) {
    match op
    case Erase(sector) => sector * 0x1000 <= a < sector * 0x1000 + 0x1000
    case Program(addr, len) => addr <= a < addr + len
  }

  /** Byte a was erased by ops and not programmed since. */
  predicate Blank(ops: seq<Op>, a: int) {
    |ops| > 0 &&
    var last := ops[|ops| - 1];
    if Covers(last, a) then last.Erase? else Blank(ops[..|ops| - 1], a)
  }

  /** Every operation stays inside [lo, hi). */
  ghost predicate Confined(ops: seq<Op>, lo: nat, hi: nat) {
    forall k, a :: 0 <= k < |ops| && Covers(ops[k], a) ==> lo <= a < hi
  }

  /** Every byte programmed had been erased before, and not programmed since. */
  ghost predicate EraseFirst(ops: seq<Op>) {
    forall k, a :: 0 <= k < |ops| && ops[k].Program? && Covers(ops[k], a) ==> Blank(ops[..k], a)
  }

  ghost predicate Disciplined(ops: seq<Op>, lo: nat, hi: nat) {
    Confined(ops, lo, hi) && EraseFirst(ops)
  }

  lemma DisciplinedErase(ops: seq<Op>, sector: nat, lo: nat, hi: nat)
    requires Disciplined(ops, lo, hi) && lo <= sector * 0x1000 && sector * 0x1000 + 0x1000 <= hi
    ensures Disciplined(ops + [Erase(sector)], lo, hi)
    ensures forall a :: sector * 0x1000 <= a < sector * 0x1000 + 0x1000 ==> Blank(ops + [Erase(sector)], a)
  {
    var all := ops + [Erase(sector)];
    assert all[..|ops|] == ops;
    forall k | 0 <= k < |ops| ensures all[..k] == ops[..k] {
    }
  }

  /** Tidy programs into a blank range keep the discipline and leave the rest of it blank. */
  lemma {:induction false} DisciplinedPrograms(ops: seq<Op>, news: seq<Op>, from: nat, to: nat, lo: nat, hi: nat)
    requires Disciplined(ops, lo, hi) && lo <= from && to <= hi && Tidy(news, from, to, false)
    requires forall a :: from <= a < to ==> Blank(ops, a)
    ensures Disciplined(ops + news, lo, hi)
    ensures forall a :: (forall k :: 0 <= k < |news| ==> !Covers(news[k], a)) && Blank(ops, a) ==> Blank(ops + news, a)
    decreases |news|
  {
    hide Disciplined, Blank;
    if news == [] {
      assert ops + news == ops;
    } else {
      var n := |news| - 1;
      var before, last := news[..n], news[n];
      DisciplinedPrograms(ops, before, from, to, lo, hi);
      assert ops + news == (ops + before) + [last];
      forall a | Covers(last, a) ensures Blank(ops + before, a) && from <= a < to {
        assert forall k :: 0 <= k < n ==> before[k] == news[k] && !Covers(before[k], a);
      }
      DisciplinedProgram(ops + before, last, lo, hi);
      forall a | (forall k :: 0 <= k < |news| ==> !Covers(news[k], a)) && Blank(ops, a) ensures Blank(ops + news, a) {
        assert !Covers(news[n], a);
        assert forall k :: 0 <= k < n ==> before[k] == news[k];
        assert Blank(ops + before, a);
      }
    }
  }

  /** One program into blank bytes. */
  lemma DisciplinedProgram(ops: seq<Op>, last: Op, lo: nat, hi: nat)
    requires Disciplined(ops, lo, hi) && forall a :: Covers(last, a) ==> lo <= a < hi && Blank(ops, a)
    ensures Disciplined(ops + [last], lo, hi)
    ensures forall a :: !Covers(last, a) && Blank(ops, a) ==> Blank(ops + [last], a)
  {
    var all := ops + [last];
    assert all[..|ops|] == ops;
    forall k | 0 <= k < |ops| ensures all[k] == ops[k] && all[..k] == ops[..k] {
    }
  }

  /** A write issued into a blank range keeps the discipline and leaves the rest blank. */
  lemma DisciplinedIssue(before: seq<Op>, after: seq<Op>, logStart: nat, from: nat, to: nat, end: nat, lo: nat, hi: nat,
                         onePage: bool)
    requires logStart <= |before| && Issued(before, after, from, to, onePage)
    requires Disciplined(before[logStart..], lo, hi) && lo <= from <= to <= end <= hi
    requires BlankFrom(before[logStart..], from, end)
    ensures logStart <= |after| && Disciplined(after[logStart..], lo, hi) && BlankFrom(after[logStart..], to, end)
  {
    var ops, news := before[logStart..], after[|before|..];
    assert after[logStart..] == ops + news;
    assert Tidy(news, from, to, false);
    DisciplinedPrograms(ops, news, from, to, lo, hi);
    forall a | to <= a < end ensures Blank(ops + news, a) {
      assert forall k :: 0 <= k < |news| ==> !Covers(news[k], a);
    }
  }

  // ----- one sector at a time -----

  function SectorEnd(a: nat): nat {
    a / 0x1000 * 0x1000 + 0x1000
  }

  /** From address `from` to the end of its sector the chip was erased and not programmed. */
  ghost predicate BlankFrom(ops: seq<Op>, from: nat, end: nat) {
    forall a :: from <= a < end ==> Blank(ops, a)
  }

  predicate AllOnes(cells: seq<byte>, from: nat, end: nat) {
    end <= |cells| && forall a :: from <= a < end ==> cells[a] == 0xff
  }

  lemma SectorFacts(a: nat)
    ensures a < SectorEnd(a) && SectorEnd(a) % 0x1000 == 0 && SectorEnd(a) / 0x1000 == a / 0x1000 + 1
    ensures a % 0x1000 == 0 ==> a / 0x1000 * 0x1000 == a && RoundUp(a) == a
    ensures a % 0x1000 != 0 ==> RoundUp(a) == SectorEnd(a)
  {
  }

  lemma ErasedIsOnes(cells: seq<byte>, sector: nat)
    requires |cells| % 0x1000 == 0 && sector * 0x1000 < |cells|
    ensures AllOnes(Erased(cells, sector), sector * 0x1000, sector * 0x1000 + 0x1000)
  {
    assert sector * 0x1000 + 0x1000 <= |cells|;
  }

  lemma AllOnesFits(cells: seq<byte>, lo: nat, hi: nat)
    requires AllOnes(cells, lo, hi)
    ensures hi <= |cells|
  {
  }

  lemma OnesOutside(before: seq<byte>, after: seq<byte>, lo: nat, hi: nat, end: nat)
    requires AllOnes(before, lo, end) && lo <= hi <= end
    ensures AllOnes(before, lo, hi) && AllOnes(before, hi, end)
    ensures SameOutside(before, after, lo, hi) ==> AllOnes(after, hi, end)
  {
  }

  /** Data programmed into erased cells reads back as itself. */
  lemma AndedIntoOnes(cells: seq<byte>, addr: nat, data: seq<byte>)
    requires AllOnes(cells, addr, addr + |data|)
    ensures Anded(cells, addr, data)[addr..addr + |data|] == data
  {
    forall i | 0 <= i < |data| ensures And(cells[addr + i], data[i]) == data[i] {
      AndBlank(cells[addr + i], data[i]);
    }
  }

  /** A buffer never straddles a sector, nor the staging area's end. */
  lemma ChunkInSector(start: nat, size: nat, progress: nat, len: nat, bufferSize: nat)
    requires start % 0x1000 == 0 && (bufferSize == 0x100 || bufferSize == 0x1000)
    requires progress % bufferSize == 0 && 0 < len <= bufferSize && progress + len <= size
    ensures var current := start + progress;
      && current % 4 == 0 && current + len <= SectorEnd(current) <= start + RoundUp(size)
      && ((current + len) % 0x1000 == 0 || SectorEnd(current + len) == SectorEnd(current))
  {
    SectorOfSum(start, progress);
    InSector(progress, len, bufferSize);
    EndsBelow(progress, size);
    SameSector(start + progress, len);
  }

  lemma ChunkAligned(start: nat, progress: nat, bufferSize: nat)
    requires start % 0x1000 == 0 && (bufferSize == 0x100 || bufferSize == 0x1000) && progress % bufferSize == 0
    ensures EspFlash.Aligned(start + progress) == start + progress
  {
    SectorOfSum(start, progress);
    InSector(progress, 0, bufferSize);
  }

  lemma SameSector(current: nat, len: nat)
    requires len > 0 && current + len <= SectorEnd(current)
    ensures (current + len) % 0x1000 == 0 || SectorEnd(current + len) == SectorEnd(current)
  {
  }

  /** What is blank behind a chunk stays described by the next address. */
  lemma RestOfSector(cells: seq<byte>, current: nat, len: nat)
    requires len > 0 && current + len <= SectorEnd(current) && AllOnes(cells, current + len, SectorEnd(current))
    ensures (current + len) % 0x1000 != 0 ==> AllOnes(cells, current + len, SectorEnd(current + len))
  {
    SameSector(current, len);
  }

  lemma RestIsBlank(ops: seq<Op>, current: nat, len: nat)
    requires len > 0 && current + len <= SectorEnd(current)
    requires BlankFrom(ops, EspFlash.Aligned(current + len), SectorEnd(current))
    ensures (current + len) % 0x1000 != 0 ==>
      BlankFrom(ops, EspFlash.Aligned(current + len), SectorEnd(current + len))
  {
    SameSector(current, len);
  }

  lemma AppendSlices(sent: seq<byte>, data: seq<byte>, i: nat, j: nat)
    requires i <= j <= |data|
    ensures (sent + data[..i]) + data[i..j] == sent + data[..j]
    ensures j == |data| ==> (sent + data[..i]) + data[i..] == sent + data
  {
  }

  lemma Associates(a: seq<byte>, b: seq<byte>, c: seq<byte>)
    ensures (a + b) + c == a + (b + c)
  {
  }

  lemma TakenSoFar(all: seq<byte>, got: seq<byte>, bytes: seq<byte>, rest: seq<byte>)
    requires all == got + (bytes + rest)
    ensures |all| - |rest| == |got| + |bytes| && rest == all[|got| + |bytes|..]
  {
  }

  lemma WholeBuffers(progress: nat, bufferSize: nat)
    requires (bufferSize == 0x100 || bufferSize == 0x1000) && progress % bufferSize == 0
    ensures (progress + bufferSize) % bufferSize == 0
  {
    if bufferSize == 0x100 {
      assert (progress + 0x100) % 0x100 == 0;
    } else {
      assert (progress + 0x1000) % 0x1000 == 0;
    }
  }

  lemma SectorOfSum(start: nat, progress: nat)
    requires start % 0x1000 == 0
    ensures SectorEnd(start + progress) == start + SectorEnd(progress)
    ensures progress % 4 == 0 ==> (start + progress) % 4 == 0
  {
    var k := start / 0x1000;
    assert start == k * 0x1000;
    QuotientOfSum(k, progress);
    if progress % 4 == 0 {
      FoursOfSum(k, progress);
    }
  }

  lemma QuotientOfSum(k: nat, progress: nat)
    ensures (k * 0x1000 + progress) / 0x1000 == k + progress / 0x1000
  {
  }

  lemma FoursOfSum(k: nat, progress: nat)
    requires progress % 4 == 0
    ensures (k * 0x1000 + progress) % 4 == 0
  {
  }

  function StagedChunk(first: bool, command: int, mode: byte, chunk: seq<byte>): seq<byte> {
    if first then Staged(command, mode, chunk) else chunk
  }

  function HashedChunk(first: bool, command: int, mode: byte, chunk: seq<byte>): seq<byte> {
    if first then Hashed(command, mode, chunk) else chunk
  }

  lemma ModeMattersOnce(command: int, a: byte, b: byte, chunk: seq<byte>)
    ensures StagedChunk(false, command, a, chunk) == StagedChunk(false, command, b, chunk)
    ensures HashedChunk(false, command, a, chunk) == HashedChunk(false, command, b, chunk)
  {
  }

  lemma NothingHashed(command: int, a: byte, b: byte)
    ensures Staged(command, a, []) == Staged(command, b, []) && Hashed(command, a, []) == Hashed(command, b, [])
  {
  }

  /** Byte 2 is outside every staging area that does not start at 0. */
  lemma HeaderOutside(before: seq<byte>, after: seq<byte>, start: nat, hi: nat)
    requires SameOutside(before, after, start, hi) && start % 0x1000 == 0
    ensures |after| == |before| && (start > 0 && |after| > 2 ==> after[2] == before[2])
  {
  }

  /** The staged image grows by the chunk programmed behind its first n bytes. */
  lemma StagedGrows(command: int, mode: byte, before: seq<byte>, after: seq<byte>, start: nat, sent: seq<byte>, n: nat,
                    end: nat)
    requires n <= |sent| && (n > 0 ==>
      && n >= 3 && start + n <= |before| && before[start..start + n] == Staged(command, mode, sent[..n]))
    requires SameOutside(before, after, start + n, end) && start + |sent| <= |after|
    requires after[start + n..start + |sent|] == StagedChunk(n == 0, command, mode, sent[n..])
    ensures after[start..start + |sent|] == Staged(command, mode, sent)
    ensures Hashed(command, mode, sent[..n]) + HashedChunk(n == 0, command, mode, sent[n..]) == Hashed(command, mode, sent)
  {
    assert sent == sent[..n] + sent[n..];
    if n > 0 {
      StagedMore(command, mode, sent[..n], sent[n..]);
      assert after[start..start + n] == before[start..start + n];
    }
    assert after[start..start + |sent|] == after[start..start + n] + after[start + n..start + |sent|];
  }

  lemma InSector(progress: nat, len: nat, bufferSize: nat)
    requires (bufferSize == 0x100 || bufferSize == 0x1000) && progress % bufferSize == 0 && len <= bufferSize
    ensures progress % 4 == 0 && progress + len <= SectorEnd(progress)
  {
    if bufferSize == 0x100 {
      assert progress % 0x100 == 0;
      assert progress % 0x1000 <= 15 * 0x100;
    } else {
      assert progress % 0x1000 == 0;
    }
  }

  lemma EndsBelow(progress: nat, size: nat)
    requires progress < size
    ensures SectorEnd(progress) <= RoundUp(size)
  {
    assert progress / 0x1000 <= (size - 1) / 0x1000;
    assert (size + 0x1000 - 1) / 0x1000 == (size - 1) / 0x1000 + 1;
  }

  /** Patching the mode byte of a whole buffer stages its first n bytes. */
  lemma PatchedBuffer(command: int, mode: byte, buffer: seq<byte>, n: nat)
    requires 3 <= |buffer| && 0 < n <= |buffer|
    ensures
      var patch := buffer[0] != 0x1f && command == U_FLASH && Mode(buffer[2]) != mode;
      && Staged(command, mode, buffer[..n]) == (if patch then buffer[2 := mode] else buffer)[..n]
      && Hashed(command, mode, buffer[..n]) == (if patch then buffer[2 := mode][2 := Mode(buffer[2])] else buffer)[..n]
  {
  }

  // ----- the checks of end() -----

  function FlashSize(code: int): nat {
    match code
    case 0 => 0x8_0000
    case 1 => 0x4_0000
    case 2 => 0x10_0000
    case 3 => 0x20_0000
    case 4 => 0x40_0000
    case 8 => 0x80_0000
    case 9 => 0x100_0000
    case _ => 0
  }

  /** Codes 2 to 4 are powers of two from a megabyte on, 0 and 1 half and a quarter of that, 8 and 9
      eight and sixteen; the others are no sizes. */
  lemma FlashSizeExact(code: int)
    ensures 2 <= code <= 4 ==> FlashSize(code) == 0x10_0000 * (if code == 2 then 1 else if code == 3 then 2 else 4)
    ensures FlashSize(0) == 0x10_0000 / 2 && FlashSize(1) == 0x10_0000 / 4
    ensures FlashSize(8) == 8 * 0x10_0000 && FlashSize(9) == 16 * 0x10_0000
    ensures FlashSize(code) == 0 <==> code !in {0, 1, 2, 3, 4, 8, 9}
  {
  }

  /** The first four staged bytes pass _verifyEnd: gzip, or a magic byte and a fitting size. */
  predicate HeaderOk(board: Board, header: seq<byte>) {
    |header| >= 4 &&
    ((header[0] == 0x1f && header[1] == 0x8b) ||
     (header[0] == 0xe9 && (board.flashMap || FlashSize(header[3] / 0x10) <= board.realSize)))
  }

  function Lower(c: char): char {
    if 'A' <= c <= 'Z' then ((c as int) + 32) as char else c
  }

  /** strcasecmp(a, b) == 0. */
  predicate EqualFold(a: string, b: string) {
    |a| == |b| && forall i :: 0 <= i < |a| ==> Lower(a[i]) == Lower(b[i])
  }

  type Digest = d: seq<byte> | |d| == 16 witness seq(16, _ => 0)

  function HexDigit(v: nat): char
    requires v < 16
  {
    if v < 10 then (('0' as int) + v) as char else (('a' as int) + (v - 10)) as char
  }

  /** MD5Builder::toString. */
  function HexString(d: Digest): string {
    seq(32, i requires 0 <= i < 32 => HexDigit(if i % 2 == 0 then d[i / 2] / 16 else d[i / 2] % 16))
  }

  /** The number a hexadecimal digit of either case stands for; -1 for other characters. */
  function HexValue(c: char): int {
    if '0' <= c <= '9' then (c as int) - ('0' as int)
    else if 'a' <= c <= 'f' then 10 + (c as int) - ('a' as int)
    else if 'A' <= c <= 'F' then 10 + (c as int) - ('A' as int)
    else -1
  }

  /** The text spells out the sixteen bytes, two digits each. */
  predicate Spells(t: string, d: Digest) {
    && |t| == 32
    && forall i :: 0 <= i < 16 ==>
         HexValue(t[2 * i]) >= 0 && HexValue(t[2 * i + 1]) >= 0 && d[i] == 16 * HexValue(t[2 * i]) + HexValue(t[2 * i + 1])
  }

  lemma DigitFolds(c: char, v: nat)
    requires v < 16
    ensures Lower(c) == Lower(HexDigit(v)) <==> HexValue(c) == v
  {
  }

  /** Comparing with a digest's text without regard to case is comparing the bytes. */
  lemma FoldExact(t: string, d: Digest)
    ensures EqualFold(t, HexString(d)) <==> Spells(t, d)
  {
    hide Lower, HexDigit, HexValue;
    var h := HexString(d);
    if |t| == 32 {
      forall i | 0 <= i < 16
        ensures Lower(t[2 * i]) == Lower(h[2 * i]) <==> HexValue(t[2 * i]) == d[i] / 16
        ensures Lower(t[2 * i + 1]) == Lower(h[2 * i + 1]) <==> HexValue(t[2 * i + 1]) == d[i] % 16
      {
        DigitFolds(t[2 * i], d[i] / 16);
        DigitFolds(t[2 * i + 1], d[i] % 16);
      }
      FoldByHalves(t, h);
      forall i | 0 <= i < 16
        ensures HexValue(t[2 * i]) == d[i] / 16 && HexValue(t[2 * i + 1]) == d[i] % 16
          <==> HexValue(t[2 * i]) >= 0 && HexValue(t[2 * i + 1]) >= 0 && d[i] == 16 * HexValue(t[2 * i]) + HexValue(t[2 * i + 1])
      {
        DigitBounds(t[2 * i]);
        DigitBounds(t[2 * i + 1]);
      }
    }
  }

  lemma DigitBounds(c: char)
    ensures -1 <= HexValue(c) < 16
  {
  }

  lemma FoldByHalves(t: string, h: string)
    requires |t| == |h| == 32
    ensures EqualFold(t, h) <==>
      forall i :: 0 <= i < 16 ==> Lower(t[2 * i]) == Lower(h[2 * i]) && Lower(t[2 * i + 1]) == Lower(h[2 * i + 1])
  {
    hide Lower;
    if forall i :: 0 <= i < 16 ==> Lower(t[2 * i]) == Lower(h[2 * i]) && Lower(t[2 * i + 1]) == Lower(h[2 * i + 1]) {
      forall k | 0 <= k < 32 ensures Lower(t[k]) == Lower(h[k]) {
        assert k == 2 * (k / 2) || k == 2 * (k / 2) + 1;
      }
    }
  }

  /** No digest is expected, or its text is that of the actual bytes, in either case. */
  predicate Md5Ok(target: string, actual: Digest) {
    target == "" || Spells(target, actual)
  }

  /** The bytes handed to the verifier's hash when every read succeeds. The payload is read
      128 bytes at a time by a function that refuses sizes that are not multiples of four, so
      a last chunk of such a size hashes what the buffer held before. */
  function HashFed(payload: seq<byte>, junk: seq<byte>): (r: seq<byte>)
    requires |junk| == 128
    ensures |r| == |payload|
  {
    var k := |payload| / 128 * 128;
    var stale := if k == 0 then junk else payload[k - 128..k];
    if |payload| % 4 == 0 then payload else payload[..k] + stale[..|payload| - k]
  }

  /** The buffer behind the whole 128-byte chunks read so far. */
  function StaleBuffer(payload: seq<byte>, junk: seq<byte>, offset: nat): seq<byte>
    requires offset <= |payload| && offset % 128 == 0
  {
    if offset == 0 then junk else payload[offset - 128..offset]
  }

  lemma NothingFed(payload: seq<byte>, junk: seq<byte>)
    ensures payload[..0] == [] && StaleBuffer(payload, junk, 0) == junk
  {
  }

  lemma FullChunkFed(payload: seq<byte>, junk: seq<byte>, offset: nat)
    requires offset % 128 == 0 && offset + 128 <= |payload|
    ensures payload[..offset] + payload[offset..offset + 128] == payload[..offset + 128]
    ensures StaleBuffer(payload, junk, offset + 128) == payload[offset..offset + 128]
    ensures offset + 128 == |payload| ==> payload[..offset + 128] == payload
  {
  }

  lemma WholeChunksFed(payload: seq<byte>, junk: seq<byte>)
    requires |junk| == 128 && |payload| % 128 == 0
    ensures HashFed(payload, junk) == payload[..|payload|]
  {
    assert |payload| % 4 == 0;
  }

  lemma LastChunkFed(payload: seq<byte>, junk: seq<byte>, offset: nat)
    requires |junk| == 128 && offset % 128 == 0 && offset < |payload| < offset + 128
    ensures var len := |payload| - offset;
      HashFed(payload, junk)
      == payload[..offset] + if len % 4 == 0 then payload[offset..] else StaleBuffer(payload, junk, offset)[..len]
  {
    LastChunk(|payload|, offset);
    assert payload == payload[..offset] + payload[offset..];
  }

  /** What was fed to the hash, and what the buffer holds. */
  datatype Feeding = Feeding(fed: seq<byte>, buff: seq<byte>)

  /** The hash loop after so many chunks, of which some reads failed: such a chunk, like a last
      one of odd size, hashes what the buffer held before. */
  function FedAfter(payload: seq<byte>, junk: seq<byte>, failures: seq<bool>): (f: Feeding)
    requires |junk| == 128 && 128 * |failures| < |payload| + 128
    ensures |f.buff| == 128
    ensures |f.fed| == Min(128 * |failures|, |payload|)
    decreases |failures|
  {
    if failures == [] then Feeding([], junk)
    else
      var k := |failures| - 1;
      var f, len := FedAfter(payload, junk, failures[..k]), Min(128, |payload| - 128 * k);
      var buff := if failures[k] || len % 4 != 0 then f.buff else payload[128 * k..128 * k + len] + f.buff[len..];
      Feeding(f.fed + buff[..len], buff)
  }

  /** How many reads failed. */
  function Failed(failures: seq<bool>): nat {
    multiset(failures)[true]
  }

  lemma FailedMore(failures: seq<bool>, failed: bool)
    ensures Failed(failures + [failed]) == Failed(failures) + if failed then 1 else 0
  {
  }

  lemma NoneFailed(failures: seq<bool>)
    ensures Failed(failures) == 0 <==> true !in failures
    ensures Failed([]) == 0
  {
  }

  lemma FedAtFirst(payload: seq<byte>, junk: seq<byte>)
    requires |junk| == 128
    ensures FedAfter(payload, junk, []) == Feeding([], junk)
  {
  }

  lemma FedOneMore(payload: seq<byte>, junk: seq<byte>, failures: seq<bool>, failed: bool, buff: seq<byte>)
    requires |junk| == 128 && 128 * |failures| < |payload| && |buff| == 128
    requires var f, k, len := FedAfter(payload, junk, failures), |failures|, Min(128, |payload| - 128 * |failures|);
      buff == if failed || len % 4 != 0 then f.buff else payload[128 * k..128 * k + len] + f.buff[len..]
    ensures var f, len := FedAfter(payload, junk, failures), Min(128, |payload| - 128 * |failures|);
      FedAfter(payload, junk, failures + [failed]) == Feeding(f.fed + buff[..len], buff)
  {
    assert (failures + [failed])[..|failures|] == failures;
  }

  /** The chunk with number k of a payload, which may be the last. */
  function ChunkAt(payload: seq<byte>, k: nat): seq<byte>
    requires 128 * k < |payload|
  {
    payload[128 * k..Min(128 * k + 128, |payload|)]
  }

  /** A chunk that is not copied into the buffer. */
  predicate Stale(payload: seq<byte>, failures: seq<bool>, k: nat)
    requires k < |failures| && 128 * k < |payload|
  {
    failures[k] || |ChunkAt(payload, k)| % 4 != 0
  }

  /** A chunk that repeats the one before it. */
  predicate Repeats(payload: seq<byte>, k: nat)
    requires 128 * k < |payload|
  {
    k > 0 && ChunkAt(payload, k) == ChunkAt(payload, k - 1)[..|ChunkAt(payload, k)|]
  }

  /** Among the first n chunks all that are stale repeat. */
  ghost predicate StaleRepeat(payload: seq<byte>, failures: seq<bool>, n: nat)
    requires n <= |failures| && 128 * |failures| < |payload| + 128
  {
    forall k :: 0 <= k < n && Stale(payload, failures, k) ==> Repeats(payload, k)
  }

  lemma ChunksJoin(payload: seq<byte>, k: nat)
    requires 128 * k < |payload|
    ensures payload[..128 * k] + ChunkAt(payload, k) == payload[..Min(128 * k + 128, |payload|)]
  {
  }

  /** One more chunk. */
  lemma FedNext(payload: seq<byte>, junk: seq<byte>, failures: seq<bool>, k: nat)
    requires |junk| == 128 && k < |failures| && 128 * |failures| < |payload| + 128
    ensures var f, g := FedAfter(payload, junk, failures[..k]), FedAfter(payload, junk, failures[..k + 1]);
      var chunk := ChunkAt(payload, k);
      && |f.fed| == 128 * k && |chunk| <= 128 && g.fed == f.fed + g.buff[..|chunk|]
      && if Stale(payload, failures, k) then g.buff == f.buff else g.buff[..|chunk|] == chunk
  {
    assert failures[..k + 1][..k] == failures[..k];
  }

  /** Then the payload is fed as it is, and the buffer holds the chunk before. */
  lemma {:induction false} FedAsStored(payload: seq<byte>, junk: seq<byte>, failures: seq<bool>, n: nat)
    requires |junk| == 128 && n <= |failures| && 128 * |failures| < |payload| + 128 && StaleRepeat(payload, failures, n)
    ensures var f := FedAfter(payload, junk, failures[..n]);
      && f.fed == payload[..Min(128 * n, |payload|)]
      && (n > 0 ==> f.buff[..|ChunkAt(payload, n - 1)|] == ChunkAt(payload, n - 1))
      && (n == 0 ==> f.buff == junk)
    decreases n
  {
    hide FedAfter, Stale, Repeats, ChunkAt;
    if n == 0 {
      FedAtFirst(payload, junk);
      assert failures[..0] == [];
    } else {
      var k := n - 1;
      FedAsStored(payload, junk, failures, k);
      FedNext(payload, junk, failures, k);
      ChunksJoin(payload, k);
      if Stale(payload, failures, k) {
        RepeatedChunk(payload, k, FedAfter(payload, junk, failures[..k]).buff);
      }
    }
  }

  lemma RepeatedChunk(payload: seq<byte>, k: nat, buff: seq<byte>)
    requires 128 * k < |payload| && Repeats(payload, k) && |buff| == 128
    requires k > 0 ==> buff[..|ChunkAt(payload, k - 1)|] == ChunkAt(payload, k - 1)
    ensures buff[..|ChunkAt(payload, k)|] == ChunkAt(payload, k)
  {
  }

  /** More chunks do not change what was fed before. */
  lemma {:induction false} FedBefore(payload: seq<byte>, junk: seq<byte>, failures: seq<bool>, n: nat)
    requires |junk| == 128 && n <= |failures| && 128 * |failures| < |payload| + 128
    ensures FedAfter(payload, junk, failures[..n]).fed <= FedAfter(payload, junk, failures).fed
    decreases |failures| - n
  {
    if n < |failures| {
      assert failures[..n + 1][..n] == failures[..n];
      FedBefore(payload, junk, failures, n + 1);
    } else {
      assert failures[..n] == failures;
    }
  }

  lemma WrongBuffer(payload: seq<byte>, k: nat, buff: seq<byte>)
    requires 128 * k < |payload| && !Repeats(payload, k) && |buff| == 128
    requires if k > 0 then buff[..|ChunkAt(payload, k - 1)|] == ChunkAt(payload, k - 1) else buff[0] != payload[0]
    ensures buff[..|ChunkAt(payload, k)|] != ChunkAt(payload, k)
  {
    if k == 0 {
      assert ChunkAt(payload, 0)[0] == payload[0];
    }
  }

  lemma WrongChunk(payload: seq<byte>, k: nat, fed: seq<byte>, part: seq<byte>, all: seq<byte>)
    requires 128 * k < |payload| && |fed| == 128 * k && fed + part <= all
    requires |part| == |ChunkAt(payload, k)| && part != ChunkAt(payload, k)
    ensures all != payload
  {
    var chunk := ChunkAt(payload, k);
    var i :| 0 <= i < |part| && part[i] != chunk[i];
    assert all[128 * k + i] == (fed + part)[128 * k + i] == part[i];
    assert payload[128 * k + i] == chunk[i];
  }

  /** The first stale chunk that does not repeat is fed wrongly. */
  lemma FedWrongly(payload: seq<byte>, failures: seq<bool>, k: nat) returns (junk: seq<byte>)
    requires k < |failures| && 128 * |failures| < |payload| + 128
    requires StaleRepeat(payload, failures, k) && Stale(payload, failures, k) && !Repeats(payload, k)
    ensures |junk| == 128 && FedAfter(payload, junk, failures).fed != payload
  {
    hide FedAfter, Stale, Repeats, ChunkAt, StaleRepeat;
    var other: byte := if payload[0] == 0 then 1 else 0;
    junk := seq(128, _ => other);
    FedAsStored(payload, junk, failures, k);
    FedNext(payload, junk, failures, k);
    FedBefore(payload, junk, failures, k + 1);
    var f, g := FedAfter(payload, junk, failures[..k]), FedAfter(payload, junk, failures[..k + 1]);
    WrongBuffer(payload, k, g.buff);
    WrongChunk(payload, k, f.fed, g.buff[..|ChunkAt(payload, k)|], FedAfter(payload, junk, failures).fed);
  }

  /** The hash covers the payload, whatever the buffer held, exactly when every chunk whose read
      failed, or was refused for its size, repeats the one before it. */
  lemma FedExact(payload: seq<byte>, failures: seq<bool>)
    requires |payload| <= 128 * |failures| < |payload| + 128
    ensures (forall junk :: |junk| == 128 ==> FedAfter(payload, junk, failures).fed == payload)
            <==> StaleRepeat(payload, failures, |failures|)
  {
    hide FedAfter, Repeats, Stale;
    assert failures[..|failures|] == failures && payload[..|payload|] == payload;
    if StaleRepeat(payload, failures, |failures|) {
      forall junk | |junk| == 128 ensures FedAfter(payload, junk, failures).fed == payload {
        FedAsStored(payload, junk, failures, |failures|);
      }
    } else {
      var k := FirstWrong(payload, failures, |failures|);
      var junk := FedWrongly(payload, failures, k);
    }
  }

  lemma {:induction false} FirstWrong(payload: seq<byte>, failures: seq<bool>, n: nat) returns (k: nat)
    requires n <= |failures| && 128 * |failures| < |payload| + 128 && !StaleRepeat(payload, failures, n)
    ensures k < n && StaleRepeat(payload, failures, k) && Stale(payload, failures, k) && !Repeats(payload, k)
    decreases n
  {
    if StaleRepeat(payload, failures, n - 1) {
      k := n - 1;
    } else {
      k := FirstWrong(payload, failures, n - 1);
    }
  }

  /** The verifier cannot tell payloads apart that differ only in chunks whose read failed. */
  lemma {:induction false} FailedChunksUnseen(a: seq<byte>, b: seq<byte>, junk: seq<byte>, failures: seq<bool>)
    requires |junk| == 128 && |a| == |b| && 128 * |failures| < |a| + 128
    requires forall k :: 0 <= k < |failures| && !failures[k] ==> ChunkAt(a, k) == ChunkAt(b, k)
    ensures FedAfter(a, junk, failures) == FedAfter(b, junk, failures)
    decreases |failures|
  {
    if failures != [] {
      FailedChunksUnseen(a, b, junk, failures[..|failures| - 1]);
    }
  }

  /** Without failing reads it comes to HashFed. */
  lemma {:induction false} FedWithoutFailures(payload: seq<byte>, junk: seq<byte>, failures: seq<bool>)
    requires |junk| == 128 && 128 * |failures| < |payload| + 128 && true !in failures
    ensures var f := FedAfter(payload, junk, failures); FedSoFar(payload, junk, 128 * |failures|, f.fed, f.buff)
    decreases |failures|
  {
    hide FedSoFar, HashFed;
    if failures == [] {
      FedNothing(payload, junk);
    } else {
      var k := |failures| - 1;
      FedWithoutFailures(payload, junk, failures[..k]);
      var f := FedAfter(payload, junk, failures[..k]);
      FedMore(payload, junk, 128 * k, f.fed, f.buff, FedAfter(payload, junk, failures).buff);
    }
  }

  /** What was fed to the hash, and what the buffer holds, ahead of the chunk at an offset. */
  ghost predicate FedSoFar(payload: seq<byte>, junk: seq<byte>, offset: nat, fed: seq<byte>, buff: seq<byte>)
    requires |junk| == 128
  {
    && offset % 128 == 0 && |buff| == 128
    && if offset <= |payload| then fed == payload[..offset] && buff == StaleBuffer(payload, junk, offset)
       else fed == HashFed(payload, junk)
  }

  lemma FedNothing(payload: seq<byte>, junk: seq<byte>)
    requires |junk| == 128
    ensures FedSoFar(payload, junk, 0, [], junk)
  {
    NothingFed(payload, junk);
  }

  lemma FedMore(payload: seq<byte>, junk: seq<byte>, offset: nat, fed: seq<byte>, buff: seq<byte>, chunk: seq<byte>)
    requires |junk| == 128 && offset < |payload| && FedSoFar(payload, junk, offset, fed, buff) && |chunk| == 128
    requires var len := Min(128, |payload| - offset);
      chunk[..len] == if len % 4 == 0 then payload[offset..offset + len] else buff[..len]
    ensures var len := Min(128, |payload| - offset);
      FedSoFar(payload, junk, offset + 128, fed + chunk[..len], chunk)
  {
    hide HashFed, StaleBuffer;
    var len := Min(128, |payload| - offset);
    if len < 128 {
      LastChunkFed(payload, junk, offset);
    } else {
      FullChunkFed(payload, junk, offset);
      assert chunk[..128] == chunk;
    }
  }

  lemma FedAll(payload: seq<byte>, junk: seq<byte>, offset: nat, fed: seq<byte>, buff: seq<byte>)
    requires |junk| == 128 && FedSoFar(payload, junk, offset, fed, buff) && offset >= |payload|
    ensures fed == HashFed(payload, junk)
  {
    hide HashFed, StaleBuffer;
    if offset == |payload| {
      WholeChunksFed(payload, junk);
    }
  }

  lemma LastChunk(n: nat, offset: nat)
    requires offset % 128 == 0 && offset < n < offset + 128
    ensures n / 128 * 128 == offset && (n % 4 == 0 <==> (n - offset) % 4 == 0)
  {
    ChunkNumber(offset / 128, n - offset);
    ChunkRest(32 * (offset / 128), n - offset);
  }

  lemma ChunkNumber(k: nat, rest: nat)
    requires rest < 128
    ensures (128 * k + rest) / 128 == k
  {
  }

  lemma ChunkRest(k: nat, rest: nat)
    ensures (4 * k + rest) % 4 == rest % 4
  {
  }

  /** The hash covers the payload whatever the buffer held exactly when the payload's size is
      a multiple of four, or its tail repeats the chunk before it. */
  lemma HashFedExact(payload: seq<byte>)
    ensures (forall junk :: |junk| == 128 ==> HashFed(payload, junk) == payload)
            <==> |payload| % 4 == 0 ||
                 var k := |payload| / 128 * 128;
                 k > 0 && payload[k..] == payload[k - 128..k][..|payload| - k]
  {
    var k := |payload| / 128 * 128;
    if |payload| % 4 != 0 {
      assert payload == payload[..k] + payload[k..];
      if k > 0 {
        var junk := seq(128, _ => 0);
        assert HashFed(payload, junk)[k..] == payload[k - 128..k][..|payload| - k];
      } else {
        var other: byte := if payload[0] == 0 then 1 else 0;
        var junk := seq(128, _ => other);
        assert HashFed(payload, junk)[0] != payload[0];
      }
    }
  }

  /** The signature check end() makes on a complete staged image; bin is the payload size. */
  predicate SignatureHolds(v: Verifier, image: seq<byte>, bin: nat, junk: seq<byte>)
    requires |junk| == 128
  {
    PayloadSize(v, image, bin) && VerdictOk(v, image, bin, junk)
  }

  /** The check fails whatever the payload size. */
  ghost predicate SignatureFails(v: Verifier, image: seq<byte>, junk: seq<byte>)
    requires |junk| == 128
  {
    forall bin: nat :: !SignatureHolds(v, image, bin, junk)
  }

  /** What the signature check came to see: what its buffer held at first, which reads of the
      payload failed, and the signature. */
  datatype Seen = Seen(junk: seq<byte>, failures: seq<bool>, sig: seq<byte>)

  /** That fits an image when so many reads failed: all other chunks, and the signature unless its
      own read failed, are as they are stored. */
  predicate SeenOf(v: Verifier, image: seq<byte>, bin: nat, seen: Seen, faults: int) {
    && PayloadSize(v, image, bin) && |seen.junk| == 128
    && bin <= 128 * |seen.failures| < bin + 128 && |seen.sig| == v.sigLen
    && Failed(seen.failures) + (if seen.sig == image[bin..bin + v.sigLen] then 0 else 1) <= faults
  }

  /** The verifier has accepted the signature for the hash of the payload, as they were seen. */
  predicate Approved(v: Verifier, image: seq<byte>, bin: nat, seen: Seen, faults: int) {
    && SeenOf(v, image, bin, seen, faults)
    && v.check(v.hash(FedAfter(image[..bin], seen.junk, seen.failures).fed), seen.sig)
  }

  lemma ApprovedMore(v: Verifier, image: seq<byte>, bin: nat, seen: Seen, faults: int, more: int)
    requires Approved(v, image, bin, seen, faults) && faults <= more
    ensures Approved(v, image, bin, seen, more)
  {
  }

  /** Without failing reads the check is about what is stored. */
  lemma SeenWithoutFaults(v: Verifier, image: seq<byte>, bin: nat, seen: Seen)
    requires SeenOf(v, image, bin, seen, 0)
    ensures Approved(v, image, bin, seen, 0) <==> SignatureHolds(v, image, bin, seen.junk)
  {
    var payload, f := image[..bin], FedAfter(image[..bin], seen.junk, seen.failures);
    NoneFailed(seen.failures);
    hide FedAfter, FedSoFar, HashFed, PayloadSize;
    FedWithoutFailures(payload, seen.junk, seen.failures);
    FedAll(payload, seen.junk, 128 * |seen.failures|, f.fed, f.buff);
  }

  /** What was accepted is the stored payload with the stored signature, if the signature could be
      read and every chunk that could not be, or was refused for its size, repeats the one before
      it; FedExact says that no less will do for every content of the buffer. */
  lemma ApprovedOfStored(v: Verifier, image: seq<byte>, bin: nat, seen: Seen, faults: int)
    requires Approved(v, image, bin, seen, faults) && seen.sig == image[bin..bin + v.sigLen]
    requires StaleRepeat(image[..bin], seen.failures, |seen.failures|)
    ensures v.check(v.hash(image[..bin]), image[bin..bin + v.sigLen])
  {
    hide FedAfter, StaleRepeat, PayloadSize;
    PayloadFits(v, image, bin);
    FedExact(image[..bin], seen.failures);
  }

  lemma PayloadFits(v: Verifier, image: seq<byte>, bin: nat)
    requires PayloadSize(v, image, bin)
    ensures bin + v.sigLen <= |image|
  {
  }

  lemma FailsWithoutTrailer(v: Verifier, image: seq<byte>, junk: seq<byte>)
    requires |junk| == 128 && forall bin :: !PayloadSize(v, image, bin)
    ensures SignatureFails(v, image, junk)
  {
  }

  lemma FailsForOne(v: Verifier, image: seq<byte>, bin: nat, junk: seq<byte>)
    requires |junk| == 128 && PayloadSize(v, image, bin)
    ensures !SignatureHolds(v, image, bin, junk) ==> SignatureFails(v, image, junk)
  {
    assert forall other: nat :: PayloadSize(v, image, other) ==> other == bin;
  }

  /** The trailer gives the payload size. */
  predicate PayloadSize(v: Verifier, image: seq<byte>, bin: nat) {
    if v.sigLen == 0 then bin == |image|
    else |image| >= v.sigLen + 4 && bin == |image| - (v.sigLen + 4) && WordOf(image[|image| - 4..]) == v.sigLen
  }

  /** What the trailer's length word says about the payload. */
  lemma NoPayload(v: Verifier, image: seq<byte>, sigLen: nat)
    requires v.sigLen == 0 || |image| < 4 || sigLen == WordOf(image[|image| - 4..])
    requires v.sigLen == 0 ==> sigLen == 0
    ensures v.sigLen == 0 ==> PayloadSize(v, image, |image|)
    ensures v.sigLen > 0 && (sigLen != v.sigLen || |image| < sigLen + 4) ==> forall bin: nat :: !PayloadSize(v, image, bin)
    ensures v.sigLen > 0 && sigLen == v.sigLen && |image| >= sigLen + 4 ==> PayloadSize(v, image, |image| - (sigLen + 4))
  {
  }

  predicate VerdictOk(v: Verifier, image: seq<byte>, bin: nat, junk: seq<byte>)
    requires |junk| == 128 && PayloadSize(v, image, bin)
  {
    v.check(v.hash(HashFed(image[..bin], junk)), image[bin..bin + v.sigLen])
  }

  lemma SliceOfSlice(cells: seq<byte>, start: nat, size: nat, i: nat, j: nat)
    requires start + size <= |cells| && i <= j <= size
    ensures cells[start..start + size][i..j] == cells[start + i..start + j]
  {
    var part := cells[start..start + size];
    assert |part| == size;
    forall k | 0 <= k < j - i ensures part[i..j][k] == cells[start + i..start + j][k] {
    }
  }

  lemma SignatureSlices(cells: seq<byte>, start: nat, size: nat, sigLen: nat, bin: nat)
    requires start + size <= |cells| && bin <= size && (sigLen == 0 ==> bin == size)
    requires sigLen > 0 ==> bin + sigLen + 4 == size
    ensures bin + sigLen <= size && (sigLen > 0 ==> bin + EspFlash.Aligned(sigLen) <= size)
    ensures cells[start..start + size][..bin] == cells[start..start + bin]
    ensures cells[start..start + size][bin..bin + sigLen] == cells[start + bin..start + bin + sigLen]
    ensures sigLen == 0 ==> cells[start..start + size][bin..bin + sigLen] == []
  {
    SliceOfSlice(cells, start, size, 0, bin);
    SliceOfSlice(cells, start, size, bin, bin + sigLen);
  }

  /** What signing.py writes: the data, its signature, and the signature's length. */
  function SignedFile(data: seq<byte>, sig: seq<byte>): seq<byte>
    requires |sig| < 0x1_0000_0000
  {
    data + sig + WordBytes(|sig|)
  }

  /** A signed file splits back into its data and signature; with data in whole words the
      check is exactly the verifier's verdict on them. */
  lemma SignedFileSplits(v: Verifier, data: seq<byte>, sig: seq<byte>, bin: nat, junk: seq<byte>)
    requires 0 < |sig| == v.sigLen && |junk| == 128
    ensures SignatureHolds(v, SignedFile(data, sig), bin, junk)
            <==> bin == |data| && v.check(v.hash(HashFed(data, junk)), sig)
    ensures |data| % 4 == 0 ==> HashFed(data, junk) == data
  {
    var image := SignedFile(data, sig);
    WordRoundTrip(|sig|);
    assert image[|image| - 4..] == WordBytes(|sig|);
    assert image[..|data|] == data && image[|data|..|data| + |sig|] == sig;
  }
}
