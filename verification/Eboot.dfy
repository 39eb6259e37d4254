// The boot loader: copy_raw (its uncompressed path) and main.
module Eboot {
  import opened Bytes
  import opened FlashChip
  import UpdaterSpec
  import EC = EbootCommand

  // ----- the copy as a function of the flash contents -----

  function SectorCopied(cells: seq<byte>, src: nat, dst: nat): (r: seq<byte>)
    requires src + 0x1000 <= |cells|
    ensures |r| == |cells|
  {
    seq(|cells|, i requires 0 <= i < |cells| => if dst <= i < dst + 0x1000 then cells[src + (i - dst)] else cells[i])
  }

  /** n sectors copied one after the other, upwards. */
  function Copied(cells: seq<byte>, src: nat, dst: nat, n: nat): (r: seq<byte>)
    requires src + n * 0x1000 <= |cells|
    ensures |r| == |cells|
    decreases n
  {
    if n == 0 then cells
    else SectorCopied(Copied(cells, src, dst, n - 1), src + (n - 1) * 0x1000, dst + (n - 1) * 0x1000)
  }

  /** memmove: the target holds what the source held, the rest is unchanged. */
  predicate Moved(before: seq<byte>, after: seq<byte>, src: nat, dst: nat, len: nat)
    requires src + len <= |before| && dst + len <= |before|
  {
    SameOutside(before, after, dst, dst + len) && after[dst..dst + len] == before[src..src + len]
  }

  /** Byte i after the copy, as long as the copy does not run into its own output. */
  lemma {:induction false} CopiedAt(cells: seq<byte>, src: nat, dst: nat, n: nat, i: nat)
    requires src + n * 0x1000 <= |cells| && i < |cells|
    requires dst <= src || src + n * 0x1000 <= dst
    ensures Copied(cells, src, dst, n)[i]
            == if dst <= i < dst + n * 0x1000 then cells[src + (i - dst)] else cells[i]
    decreases n
  {
    if n > 0 {
      var s, d := src + (n - 1) * 0x1000, dst + (n - 1) * 0x1000;
      CopiedAt(cells, src, dst, n - 1, if d <= i < d + 0x1000 then s + (i - d) else i);
    }
  }

  /** Copying upwards, sector by sector, is memmove when the target does not start inside the
      source behind its first byte. */
  lemma CopiedMoves(cells: seq<byte>, src: nat, dst: nat, n: nat)
    requires src + n * 0x1000 <= |cells| && dst + n * 0x1000 <= |cells|
    requires dst <= src || src + n * 0x1000 <= dst
    ensures Moved(cells, Copied(cells, src, dst, n), src, dst, n * 0x1000)
  {
    var after := Copied(cells, src, dst, n);
    forall i | 0 <= i < |cells|
      ensures after[i] == if dst <= i < dst + n * 0x1000 then cells[src + (i - dst)] else cells[i]
    {
      CopiedAt(cells, src, dst, n, i);
    }
    var a, b := after[dst..dst + n * 0x1000], cells[src..src + n * 0x1000];
    forall i | 0 <= i < n * 0x1000 ensures a[i] == b[i] {
      assert a[i] == after[dst + i];
    }
  }

  /** When it does start there, some contents are not moved: the first source sector is copied
      over a later one before that one is read. */
  lemma CopiedCorrupts(size: nat, src: nat, k: nat, n: nat) returns (cells: seq<byte>)
    requires 0 < k < n && src + (k + n) * 0x1000 <= size
    ensures |cells| == size
    ensures var dst := src + k * 0x1000; !Moved(cells, Copied(cells, src, dst, n), src, dst, n * 0x1000)
  {
    hide Copied, Moved;
    var dst := src + k * 0x1000;
    cells := seq(size, i => if i == src then 1 else 0);
    FirstSectorRepeats(cells, src, dst, k, n);
    NotMoved(cells, Copied(cells, src, dst, n), src, dst, n * 0x1000, k * 0x1000);
  }

  lemma NotMoved(before: seq<byte>, after: seq<byte>, src: nat, dst: nat, len: nat, i: nat)
    requires src + len <= |before| == |after| && dst + len <= |after| && i < len && after[dst + i] != before[src + i]
    ensures !Moved(before, after, src, dst, len)
  {
    assert after[dst..dst + len][i] == after[dst + i] && before[src..src + len][i] == before[src + i];
  }

  lemma {:induction false} FirstSectorRepeats(cells: seq<byte>, src: nat, dst: nat, k: nat, n: nat)
    requires 0 < k && dst == src + k * 0x1000 && dst + n * 0x1000 <= |cells|
    ensures n > 0 ==> Copied(cells, src, dst, n)[dst] == cells[src]
    ensures n > k ==> Copied(cells, src, dst, n)[dst + k * 0x1000] == cells[src]
    ensures Copied(cells, src, dst, n)[src] == cells[src]
    decreases n
  {
    if n > 0 {
      FirstSectorRepeats(cells, src, dst, k, n - 1);
    }
  }

  ghost predicate AlwaysMoves(size: nat, p: nat, q: nat, n: nat)
    requires (p + n) * 0x1000 <= size && (q + n) * 0x1000 <= size
  {
    forall cells: seq<byte> :: |cells| == size ==>
      Moved(cells, Copied(cells, p * 0x1000, q * 0x1000, n), p * 0x1000, q * 0x1000, n * 0x1000)
  }

  /** The forward copy of n sectors from sector p to sector q is memmove, for all contents,
      exactly when the target starts at or below the source or behind its end. */
  lemma CopyIsMoveExact(size: nat, p: nat, q: nat, n: nat)
    requires n > 0 && (p + n) * 0x1000 <= size && (q + n) * 0x1000 <= size
    ensures AlwaysMoves(size, p, q, n) <==> (q <= p || p + n <= q)
  {
    hide Moved, Copied;
    if q <= p || p + n <= q {
      forall cells: seq<byte> | |cells| == size
        ensures Moved(cells, Copied(cells, p * 0x1000, q * 0x1000, n), p * 0x1000, q * 0x1000, n * 0x1000)
      {
        CopiedMoves(cells, p * 0x1000, q * 0x1000, n);
      }
    } else {
      var cells := CopiedCorrupts(size, p * 0x1000, q - p, n);
      assert p * 0x1000 + (q - p) * 0x1000 == q * 0x1000;
    }
  }

  // ----- restarts -----

  /** A run of the copy that was cut short in sector k of the target: the sectors before it
      are copied, sector k holds anything. Sector 0 is the boot loader itself; a cut while it
      is being rewritten is excluded, so there the flash is as it was. Or the cut came behind
      the copy, ahead of the clearing of the command. */
  ghost predicate CutShort(before: seq<byte>, after: seq<byte>, src: nat, dst: nat, n: nat)
    requires src + n * 0x1000 <= |before| && dst + n * 0x1000 <= |before|
  {
    after == Copied(before, src, dst, n) || exists k :: 0 <= k < n && CutAt(before, after, src, dst, k)
  }

  predicate CutAt(before: seq<byte>, after: seq<byte>, src: nat, dst: nat, k: nat)
    requires src + k * 0x1000 <= |before|
  {
    var sofar := Copied(before, src, dst, k);
    if dst + k * 0x1000 == 0 then after == sofar
    else SameOutside(sofar, after, dst + k * 0x1000, dst + k * 0x1000 + 0x1000)
  }

  /** runs[0] is the flash before the first run, runs[i + 1] after the i-th cut run. */
  ghost predicate CutRuns(runs: seq<seq<byte>>, src: nat, dst: nat, n: nat) {
    && |runs| > 0 && src + n * 0x1000 <= |runs[0]| && dst + n * 0x1000 <= |runs[0]|
    && (forall i :: 0 <= i < |runs| ==> |runs[i]| == |runs[0]|)
    && forall i :: 0 <= i < |runs| - 1 ==> CutShort(runs[i], runs[i + 1], src, dst, n)
  }

  predicate Disjoint(src: nat, dst: nat, n: nat) {
    src + n * 0x1000 <= dst || dst + n * 0x1000 <= src
  }

  /** A cut run changes the target only. */
  lemma CutStaysInTarget(before: seq<byte>, after: seq<byte>, src: nat, dst: nat, n: nat)
    requires src + n * 0x1000 <= |before| && dst + n * 0x1000 <= |before| && Disjoint(src, dst, n)
    requires CutShort(before, after, src, dst, n)
    ensures SameOutside(before, after, dst, dst + n * 0x1000)
  {
    var k: nat := n;
    if after != Copied(before, src, dst, n) {
      k :| 0 <= k < n && CutAt(before, after, src, dst, k);
    }
    forall i | 0 <= i < |before| && !(dst <= i < dst + n * 0x1000) ensures before[i] == after[i] {
      CopiedAt(before, src, dst, k, i);
    }
  }

  /** Restart safety: with disjoint source and target, after any number of cut runs a complete
      run leaves the original source in the target and the rest of the flash as it was. */
  lemma {:induction false} RestartCompletes(runs: seq<seq<byte>>, src: nat, dst: nat, n: nat)
    requires CutRuns(runs, src, dst, n) && Disjoint(src, dst, n)
    ensures Moved(runs[0], Copied(runs[|runs| - 1], src, dst, n), src, dst, n * 0x1000)
    decreases |runs|
  {
    var last := runs[|runs| - 1];
    if |runs| == 1 {
      CopiedMoves(last, src, dst, n);
    } else {
      RestartCompletes(runs[..|runs| - 1], src, dst, n);
      var prev := runs[|runs| - 2];
      assert CutShort(prev, runs[|runs| - 2 + 1], src, dst, n);
      CutStaysInTarget(prev, last, src, dst, n);
      CopiedMoves(prev, src, dst, n);
      CopiedMoves(last, src, dst, n);
      MovedAgain(runs[0], prev, last, src, dst, n);
    }
  }

  lemma MovedAgain(first: seq<byte>, prev: seq<byte>, last: seq<byte>, src: nat, dst: nat, n: nat)
    requires src + n * 0x1000 <= |first| && dst + n * 0x1000 <= |first| && |prev| == |first| == |last|
    requires Disjoint(src, dst, n) && SameOutside(prev, last, dst, dst + n * 0x1000)
    requires Moved(first, Copied(prev, src, dst, n), src, dst, n * 0x1000)
    requires Moved(prev, Copied(prev, src, dst, n), src, dst, n * 0x1000)
    requires Moved(last, Copied(last, src, dst, n), src, dst, n * 0x1000)
    ensures Moved(first, Copied(last, src, dst, n), src, dst, n * 0x1000)
  {
    var x, y := Copied(prev, src, dst, n), Copied(last, src, dst, n);
    forall i | 0 <= i < |first| && !(dst <= i < dst + n * 0x1000) ensures first[i] == y[i] {
      assert x[i] == prev[i] && y[i] == last[i];
    }
    assert last[src..src + n * 0x1000] == prev[src..src + n * 0x1000];
  }

  /** With overlapping ranges one cut run can destroy the source for good: sector k of the
      target is the first sector of the source. */
  lemma OverlapIsNotRestartable(cells: seq<byte>, dst: nat, k: nat, n: nat) returns (after: seq<byte>)
    requires 0 < k < n && dst + (k + n) * 0x1000 <= |cells|
    ensures |after| == |cells|
    ensures var src := dst + k * 0x1000;
      && CutRuns([cells, after], src, dst, n)
      && !Moved(cells, Copied(after, src, dst, n), src, dst, n * 0x1000)
  {
    var src := dst + k * 0x1000;
    var sofar := Copied(cells, src, dst, k);
    var other: byte := if cells[src] == 0 then 1 else 0;
    after := sofar[src := other];
    assert CutAt(cells, after, src, dst, k);
    assert CutShort(cells, after, src, dst, n);
    CopiedAt(after, src, dst, n, dst);
    assert Copied(after, src, dst, n)[dst..dst + n * 0x1000][0] == other;
    assert cells[src..src + n * 0x1000][0] == cells[src];
  }

  /** Copying a range onto itself is not restartable either, unless it is only sector 0. */
  lemma SelfCopyIsNotRestartable(cells: seq<byte>, src: nat, k: nat, n: nat) returns (after: seq<byte>)
    requires k < n && src + k * 0x1000 > 0 && src + n * 0x1000 <= |cells|
    ensures |after| == |cells|
    ensures CutRuns([cells, after], src, src, n) && !Moved(cells, Copied(after, src, src, n), src, src, n * 0x1000)
  {
    var sofar := Copied(cells, src, src, k);
    var a := src + k * 0x1000;
    var other: byte := if cells[a] == 0 then 1 else 0;
    after := sofar[a := other];
    assert CutAt(cells, after, src, src, k);
    assert CutShort(cells, after, src, src, n);
    CopiedAt(after, src, src, n, a);
    assert Copied(after, src, src, n)[src..src + n * 0x1000][k * 0x1000] == other;
    assert cells[src..src + n * 0x1000][k * 0x1000] == cells[a];
  }

  /** Whatever the contents and however often the copy is cut, a complete run moves. */
  ghost predicate Restartable(size: nat, p: nat, q: nat, n: nat)
    requires (p + n) * 0x1000 <= size && (q + n) * 0x1000 <= size
  {
    forall runs :: CutRuns(runs, p * 0x1000, q * 0x1000, n) && |runs[0]| == size ==>
      Moved(runs[0], Copied(runs[|runs| - 1], p * 0x1000, q * 0x1000, n), p * 0x1000, q * 0x1000, n * 0x1000)
  }

  /** The copy of n sectors from sector p to sector q survives every restart exactly when the
      ranges are disjoint (or it is the boot loader's own sector onto itself). */
  lemma RestartableExact(size: nat, p: nat, q: nat, n: nat)
    requires n > 0 && (p + n) * 0x1000 <= size && (q + n) * 0x1000 <= size
    ensures Restartable(size, p, q, n) <==> (p + n <= q || q + n <= p || (p == q == 0 && n == 1))
  {
    hide Moved, Copied;
    var src, dst := p * 0x1000, q * 0x1000;
    if p + n <= q || q + n <= p {
      forall runs | CutRuns(runs, src, dst, n) && |runs[0]| == size
        ensures Moved(runs[0], Copied(runs[|runs| - 1], src, dst, n), src, dst, n * 0x1000)
      {
        RestartCompletes(runs, src, dst, n);
      }
    } else if p == q == 0 && n == 1 {
      forall runs | CutRuns(runs, src, dst, n) && |runs[0]| == size
        ensures Moved(runs[0], Copied(runs[|runs| - 1], src, dst, n), src, dst, n * 0x1000)
      {
        OnlyBootSector(runs);
        CopiedMoves(runs[0], 0, 0, 1);
      }
    } else {
      RestartCounterexample(size, p, q, n);
    }
  }

  lemma RestartCounterexample(size: nat, p: nat, q: nat, n: nat)
    requires n > 0 && (p + n) * 0x1000 <= size && (q + n) * 0x1000 <= size
    requires !(p + n <= q || q + n <= p || (p == q == 0 && n == 1))
    ensures !Restartable(size, p, q, n)
  {
    hide Moved, Copied;
    var src, dst := p * 0x1000, q * 0x1000;
    var zeros: seq<byte> := seq(size, _ => 0);
    if q > p {
      var cells := CopiedCorrupts(size, src, q - p, n);
      var runs := [cells];
      assert dst == src + (q - p) * 0x1000;
      assert CutRuns(runs, src, dst, n) && runs[|runs| - 1] == cells;
    } else if q < p {
      var after := OverlapIsNotRestartable(zeros, dst, p - q, n);
      var runs := [zeros, after];
      assert src == dst + (p - q) * 0x1000;
      assert CutRuns(runs, src, dst, n) && runs[|runs| - 1] == after;
    } else {
      var after := SelfCopyIsNotRestartable(zeros, src, if p == 0 then 1 else 0, n);
      var runs := [zeros, after];
      assert CutRuns(runs, src, dst, n) && runs[|runs| - 1] == after;
    }
  }

  lemma {:induction false} OnlyBootSector(runs: seq<seq<byte>>)
    requires CutRuns(runs, 0, 0, 1)
    ensures runs[|runs| - 1] == runs[0]
    decreases |runs|
  {
    if |runs| > 1 {
      OnlyBootSector(runs[..|runs| - 1]);
      assert CutShort(runs[|runs| - 2], runs[|runs| - 2 + 1], 0, 0, 1);
    }
  }

  // ----- copy_raw and main -----

  /** The gzip signature that sends copy_raw down its other path. */
  predicate GzipAt(cells: seq<byte>, addr: nat) {
    addr + 1 < |cells| && cells[addr] == 0x1f && cells[addr + 1] == 0x8b
  }

  /** The loop counter: the rounded size in 32 bits, taken as a signed number. */
  function SignedLeft(size: u32): int {
    var left := UpdaterSpec.Rounded32(size);
    if left >= 0x8000_0000 then left - 0x1_0000_0000 else left
  }

  /** The number of sectors the loop copies. */
  function Sectors(size: u32): nat {
    if SignedLeft(size) > 0 then SignedLeft(size) / 0x1000 else 0
  }

  lemma SectorsExact(size: u32)
    requires size <= 0x7fff_f000
    ensures Sectors(size) * 0x1000 == UpdaterSpec.RoundUp(size) == SignedLeft(size)
  {
    UpdaterSpec.Rounded32Exact(size);
    UpdaterSpec.RoundUpBounds(size);
  }

  lemma WordAround(addr: nat, size: nat)
    requires size % 0x1000 == 0
    ensures addr / 4 * 4 + addr % 4 == addr && (addr < size ==> addr / 4 * 4 + 4 <= size)
  {
    var k := size / 0x1000;
    assert size == 4 * (0x400 * k);
  }

  method ReadFlashByte(chip: Chip, addr: nat) returns (b: byte)
    requires chip.Valid()
    modifies chip`faults
    ensures chip.faults >= old(chip.faults)
    ensures chip.faults == old(chip.faults) && addr < |chip.cells| ==> b == chip.cells[addr]
  {
    WordAround(addr, |chip.cells|);
    var uninitialised: int := *;
    b := if 0 <= uninitialised < 0x100 then uninitialised else 0;
    var ok, buff := chip.Read(addr / 4 * 4, 4);
    if ok {
      b := buff[addr % 4];
    }
  }

  /** The uncompressing path, of which nothing is known here. */
  method CopyGzip(chip: Chip) returns (res: int)
    requires chip.Valid()
    modifies chip
    ensures chip.Valid() && chip.faults >= old(chip.faults) && |chip.cells| == |old(chip.cells)| && res != 1
  {
    var status: bool := *;
    res := if status then 0 else 6;
    var junk: seq<byte> := *;
    chip.cells := Garbled(chip.cells, junk, 0, |chip.cells|);
  }

  /** One round of copy_raw's loop. */
  method CopySector(chip: Chip, saddr: nat, daddr: nat, verify: bool) returns (res: int)
    requires chip.Valid() && daddr % 0x1000 == 0
    modifies chip
    ensures chip.Valid() && chip.faults >= old(chip.faults) && |chip.cells| == |old(chip.cells)| && res != 1
    ensures SameOutside(old(chip.cells), chip.cells, daddr, daddr + 0x1000)
    ensures res == 0 ==>
      && saddr + 0x1000 <= |chip.cells| && daddr + 0x1000 <= |chip.cells|
      && chip.cells == (if verify then old(chip.cells) else SectorCopied(old(chip.cells), saddr, daddr))
      && (verify ==> chip.cells[saddr..saddr + 0x1000] == chip.cells[daddr..daddr + 0x1000])
    ensures !verify && chip.faults == old(chip.faults) && saddr + 0x1000 <= |chip.cells| && daddr + 0x1000 <= |chip.cells|
      ==> res == 0
    // the boot loader's own sector is left alone when it would not change
    ensures daddr == 0 && 0x1000 <= |chip.cells| && saddr + 0x1000 <= |chip.cells| ==>
      old(chip.cells)[saddr..saddr + 0x1000] == old(chip.cells)[..0x1000] ==> chip.log == old(chip.log)
  {
    var ok, buffer := chip.Read(saddr, 0x1000);
    if !ok {
      return 3;
    }
    if verify {
      var buffer2;
      ok, buffer2 := chip.Read(daddr, 0x1000);
      if !ok {
        return 4;
      }
      return if buffer != buffer2 then 9 else 0;
    }
    var skip := false;
    if daddr == 0 {
      var buffer2;
      ok, buffer2 := chip.Read(daddr, 0x1000);
      if !ok {
        return 4;
      }
      if buffer2 == buffer {
        skip := true;
        assert forall i :: 0 <= i < 0x1000 ==> chip.cells[i] == buffer2[i] == chip.cells[saddr + i];
        assert SectorCopied(chip.cells, saddr, 0) == chip.cells;
      }
    }
    if !skip {
      res := RewriteSector(chip, daddr, buffer);
      if res != 0 {
        return;
      }
    }
    res := 0;
  }

  method RewriteSector(chip: Chip, daddr: nat, buffer: seq<byte>) returns (res: int)
    requires chip.Valid() && daddr % 0x1000 == 0 && |buffer| == 0x1000
    modifies chip
    ensures chip.Valid() && chip.faults >= old(chip.faults) && |chip.cells| == |old(chip.cells)| && res != 1
    ensures SameOutside(old(chip.cells), chip.cells, daddr, daddr + 0x1000)
    ensures res == 0 <==> chip.faults == old(chip.faults) && daddr + 0x1000 <= |chip.cells|
    ensures res == 0 ==> chip.cells == Programmed(true, old(chip.cells), daddr, buffer)
  {
    hide Erased, Programmed, SameOutside;
    SectorFits(daddr, |chip.cells|);
    SameEverywhere(chip.cells, daddr, daddr + 0x1000);
    var ok := chip.EraseSector(daddr / 0x1000);
    if !ok {
      return 2;
    }
    ghost var erased := chip.cells;
    RewrittenSector(old(chip.cells), daddr / 0x1000, buffer, chip.puya);
    ok := chip.Write(daddr, buffer);
    OutsideThen(old(chip.cells), erased, chip.cells, daddr, daddr + 0x1000);
    if !ok {
      return 4;
    }
    return 0;
  }

  lemma SectorFits(a: nat, size: nat)
    requires a % 0x1000 == 0 && size % 0x1000 == 0
    ensures a / 0x1000 * 0x1000 == a && (a < size ==> a + 0x1000 <= size)
  {
  }

  /** Erasing and programming a sector leaves the data, whichever way the chip programs. */
  lemma RewrittenSector(cells: seq<byte>, sector: nat, buffer: seq<byte>, puya: bool)
    requires |buffer| == 0x1000 && sector * 0x1000 + 0x1000 <= |cells|
    ensures Programmed(puya, Erased(cells, sector), sector * 0x1000, buffer)
            == Programmed(true, cells, sector * 0x1000, buffer)
  {
    hide And;
    var e, d := Erased(cells, sector), sector * 0x1000;
    var a, b := Programmed(puya, e, d, buffer), Programmed(true, cells, d, buffer);
    forall i | 0 <= i < |cells| ensures a[i] == b[i] {
      if d <= i < d + 0x1000 {
        AndBlank(e[i], buffer[i - d]);
      }
    }
  }

  /** copy_raw. `raw` tells whether the uncompressed path was taken: without a failing read
      that is so exactly when the source does not start with the gzip signature. */
  method CopyRaw(chip: Chip, srcAddr: u32, dstAddr: u32, size: u32, verify: bool) returns (res: int, ghost raw: bool)
    requires chip.Valid()
    modifies chip
    ensures chip.Valid() && chip.faults >= old(chip.faults) && |chip.cells| == |old(chip.cells)|
    ensures srcAddr % 0x1000 != 0 || dstAddr % 0x1000 != 0 <==> res == 1
    ensures res == 1 ==> raw && chip.cells == old(chip.cells)
    ensures chip.faults == old(chip.faults) && srcAddr + 1 < |chip.cells| && res != 1 ==>
      (raw <==> !GzipAt(old(chip.cells), srcAddr))
    ensures raw && res == 0 ==> CopyDone(old(chip.cells), chip.cells, srcAddr, dstAddr, Sectors(size), verify)
    ensures raw && res > 1 && !verify && srcAddr <= |chip.cells| ==>
      Interrupted(old(chip.cells), chip.cells, srcAddr, dstAddr, Sectors(size))
    ensures raw ==> SameOutside(old(chip.cells), chip.cells, dstAddr, dstAddr + Sectors(size) * 0x1000)
    ensures raw && !verify && chip.faults == old(chip.faults) && srcAddr % 0x1000 == 0 && dstAddr % 0x1000 == 0
      && srcAddr + Sectors(size) * 0x1000 <= |chip.cells| && dstAddr + Sectors(size) * 0x1000 <= |chip.cells|
      ==> res == 0
  {
    if srcAddr % 0x1000 != 0 || dstAddr % 0x1000 != 0 {
      return 1, true;
    }
    SameEverywhere(chip.cells, dstAddr, dstAddr + Sectors(size) * 0x1000);
    raw := true;
    var left := SignedLeft(size);
    var b0 := ReadFlashByte(chip, srcAddr);
    var b1 := ReadFlashByte(chip, srcAddr + 1);
    if b0 == 0x1f && b1 == 0x8b {
      raw := false;
      res := CopyGzip(chip);
      return;
    }
    MultipleOfSector(size);
    res := CopySectors(chip, srcAddr, dstAddr, left, verify, Sectors(size));
  }

  /** A successful run of the loop over n sectors. */
  ghost predicate CopyDone(before: seq<byte>, after: seq<byte>, src: nat, dst: nat, n: nat, verify: bool) {
    && (n > 0 ==> src + n * 0x1000 <= |before| && dst + n * 0x1000 <= |before|)
    && (if verify || n == 0 then
          after == before && (n > 0 ==> after[src..src + n * 0x1000] == after[dst..dst + n * 0x1000])
        else after == Copied(before, src, dst, n))
  }

  /** A run of the loop that stopped in some sector: what a failing operation leaves, and what a
      reset in the middle leaves. */
  ghost predicate Interrupted(before: seq<byte>, after: seq<byte>, src: nat, dst: nat, n: nat) {
    exists k :: 0 <= k < n && StoppedAt(before, after, src, dst, k)
  }

  predicate StoppedAt(before: seq<byte>, after: seq<byte>, src: nat, dst: nat, k: nat) {
    && src + k * 0x1000 <= |before|
    && SameOutside(Copied(before, src, dst, k), after, dst + k * 0x1000, dst + k * 0x1000 + 0x1000)
  }

  /** Such a run is one of the cut runs that a restart repairs, unless it stopped inside the
      boot loader's own sector. */
  lemma InterruptedIsCut(before: seq<byte>, after: seq<byte>, src: nat, dst: nat, n: nat)
    requires src + n * 0x1000 <= |before| && dst + n * 0x1000 <= |before| && Interrupted(before, after, src, dst, n)
    ensures CutShort(before, after, src, dst, n) || (dst == 0 && SameOutside(before, after, 0, 0x1000))
  {
    var k :| 0 <= k < n && StoppedAt(before, after, src, dst, k);
    if dst + k * 0x1000 > 0 {
      assert CutAt(before, after, src, dst, k);
    }
  }

  lemma StopsAt(before: seq<byte>, now: seq<byte>, after: seq<byte>, src: nat, dst: nat, k: nat, n: nat)
    requires CopyDone(before, now, src, dst, k, false) && k < n
    requires SameOutside(now, after, dst + k * 0x1000, dst + k * 0x1000 + 0x1000)
    ensures k == 0 || src + k * 0x1000 <= |before|
    ensures src <= |before| ==> Interrupted(before, after, src, dst, n)
  {
    if src <= |before| {
      assert StoppedAt(before, after, src, dst, k);
    }
  }

  lemma MultipleOfSector(size: u32)
    ensures SignedLeft(size) % 0x1000 == 0 && Sectors(size) * 0x1000 == if SignedLeft(size) > 0 then SignedLeft(size) else 0
  {
    UpdaterSpec.Rounded32Exact(size);
    UpdaterSpec.RoundUpBounds(size);
  }

  lemma NothingCopied(cells: seq<byte>, src: nat, dst: nat, verify: bool)
    ensures CopyDone(cells, cells, src, dst, 0, verify)
  {
  }

  /** One more sector. */
  lemma CopyDoneMore(before: seq<byte>, now: seq<byte>, after: seq<byte>, src: nat, dst: nat, k: nat, verify: bool)
    requires CopyDone(before, now, src, dst, k, verify) && |now| == |before|
    requires var s, d := src + k * 0x1000, dst + k * 0x1000;
      && s + 0x1000 <= |now| && d + 0x1000 <= |now|
      && after == (if verify then now else SectorCopied(now, s, d))
      && (verify ==> after[s..s + 0x1000] == after[d..d + 0x1000])
    ensures CopyDone(before, after, src, dst, k + 1, verify)
  {
    hide SectorCopied;
    if verify {
      VerifiedMore(after, src, dst, k * 0x1000);
    }
  }

  lemma VerifiedMore(cells: seq<byte>, src: nat, dst: nat, i: nat)
    requires src + i + 0x1000 <= |cells| && dst + i + 0x1000 <= |cells|
    requires i > 0 ==> cells[src..src + i] == cells[dst..dst + i]
    requires cells[src + i..src + i + 0x1000] == cells[dst + i..dst + i + 0x1000]
    ensures cells[src..src + (i + 0x1000)] == cells[dst..dst + (i + 0x1000)]
  {
    assert cells[src..src + (i + 0x1000)] == cells[src..src + i] + cells[src + i..src + i + 0x1000];
    assert cells[dst..dst + (i + 0x1000)] == cells[dst..dst + i] + cells[dst + i..dst + i + 0x1000];
  }

  lemma NextSector(a: nat)
    requires a % 0x1000 == 0
    ensures (a + 0x1000) % 0x1000 == 0
  {
  }

  /** The loop of copy_raw. */
  method CopySectors(chip: Chip, srcAddr: nat, dstAddr: nat, total: int, verify: bool, ghost n: nat) returns (res: int)
    requires chip.Valid() && dstAddr % 0x1000 == 0 && (if total > 0 then total == n * 0x1000 else n == 0)
    modifies chip
    ensures chip.Valid() && chip.faults >= old(chip.faults) && |chip.cells| == |old(chip.cells)| && res != 1
    ensures res == 0 ==> CopyDone(old(chip.cells), chip.cells, srcAddr, dstAddr, n, verify)
    ensures SameOutside(old(chip.cells), chip.cells, dstAddr, dstAddr + n * 0x1000)
    ensures !verify && res != 0 && srcAddr <= |chip.cells| ==>
      Interrupted(old(chip.cells), chip.cells, srcAddr, dstAddr, n)
    ensures !verify && chip.faults == old(chip.faults) ==>
      srcAddr + n * 0x1000 <= |chip.cells| && dstAddr + n * 0x1000 <= |chip.cells| ==> res == 0
  {
    hide *;
    NothingCopied(chip.cells, srcAddr, dstAddr, verify);
    var left, saddr, daddr := total, srcAddr, dstAddr;
    ghost var k := 0;
    ghost var end := dstAddr + n * 0x1000;
    SameEverywhere(chip.cells, dstAddr, end);
    while left > 0
      invariant 0 <= k <= n && (if total > 0 then left == (n - k) * 0x1000 else left == total)
      invariant saddr == srcAddr + k * 0x1000 && daddr == dstAddr + k * 0x1000 && daddr % 0x1000 == 0
      invariant chip.Valid() && chip.faults >= old(chip.faults) && |chip.cells| == |old(chip.cells)|
      invariant CopyDone(old(chip.cells), chip.cells, srcAddr, dstAddr, k, verify)
      invariant SameOutside(old(chip.cells), chip.cells, dstAddr, end)
      decreases left
    {
      ghost var before := chip.cells;
      NextSector(daddr);
      res := CopySector(chip, saddr, daddr, verify);
      WiderOutside(before, chip.cells, daddr, daddr + 0x1000, dstAddr, end);
      OutsideThen(old(chip.cells), before, chip.cells, dstAddr, end);
      if res != 0 {
        if !verify {
          StopsAt(old(chip.cells), before, chip.cells, srcAddr, dstAddr, k, n);
        }
        return;
      }
      CopyDoneMore(old(chip.cells), before, chip.cells, srcAddr, dstAddr, k, verify);
      saddr, daddr, left := saddr + 0x1000, daddr + 0x1000, left - 0x1000;
      k := k + 1;
    }
    res := 0;
  }

  /** main. The result is the address of the image that is started, if the boot loader comes
      to starting one. */
  method BootMain(chip: Chip, rtc: array<u32>) returns (started: Option<u32>, res: int, ghost raw: bool)
    requires chip.Valid() && rtc.Length == EC.DW_COUNT
    modifies chip, rtc
    ensures chip.Valid() && chip.faults >= old(chip.faults) && |chip.cells| == |old(chip.cells)|
    // the command is used up, whatever became of the copy
    ensures old(EC.Accepted(rtc[..])) ==> !EC.Accepted(rtc[..])
    ensures !old(EC.Accepted(rtc[..])) ==> rtc[..] == old(rtc[..]) && chip.cells == old(chip.cells) && started == Some(0)
    ensures old(EC.Accepted(rtc[..])) ==>
      var cmd := old(rtc[..]);
      if cmd[1] == EC.ACTION_COPY_RAW then
        && (started == if res == 0 then Some(cmd[3]) else None)
        && (raw && res == 0 ==> CopyDone(old(chip.cells), chip.cells, cmd[2], cmd[3], Sectors(cmd[4]), false))
        && (raw ==> SameOutside(old(chip.cells), chip.cells, cmd[3], cmd[3] + Sectors(cmd[4]) * 0x1000))
        && (raw && res > 1 && cmd[2] <= |chip.cells| ==>
              Interrupted(old(chip.cells), chip.cells, cmd[2], cmd[3], Sectors(cmd[4])))
        && (cmd[2] % 0x1000 != 0 || cmd[3] % 0x1000 != 0 <==> res == 1)
        && (chip.faults == old(chip.faults) && cmd[2] + 1 < |chip.cells| && res != 1 ==>
              (raw <==> !GzipAt(old(chip.cells), cmd[2])))
        && (chip.faults == old(chip.faults) && raw && cmd[2] % 0x1000 == 0 && cmd[3] % 0x1000 == 0
            && cmd[2] + Sectors(cmd[4]) * 0x1000 <= |chip.cells| && cmd[3] + Sectors(cmd[4]) * 0x1000 <= |chip.cells|
            ==> res == 0)
      else
        chip.cells == old(chip.cells) && (started == if cmd[1] == EC.ACTION_LOAD_APP then Some(cmd[2]) else None)
  {
    hide CopyDone, SameOutside, Sectors;
    res, raw := 9, true;
    var clearCmd := false;
    var cmd := new EC.Command(0, seq(29, _ => 0));
    var rd := cmd.Read(rtc);
    if rd == 0 {
      clearCmd := true;
    } else {
      cmd.action := EC.ACTION_LOAD_APP;
      cmd.args := cmd.args[0 := 0];
    }
    if cmd.action == EC.ACTION_COPY_RAW {
      res, raw := CopyRaw(chip, cmd.args[0], cmd.args[1], cmd.args[2], false);
      if res == 0 {
        cmd.action := EC.ACTION_LOAD_APP;
        cmd.args := cmd.args[0 := cmd.args[1]];
      }
    }
    if clearCmd {
      EC.ClearedIsRejected(rtc[..]);
      EC.Clear(rtc);
    }
    started := None;
    if cmd.action == EC.ACTION_LOAD_APP {
      started := Some(cmd.args[0]);
    }
  }

  // ----- boots that do not come to an end -----

  /** A power failure while a sector is rewritten leaves anything in it. The boot loader's own
      sector is excluded. */
  method LosePower(chip: Chip, daddr: nat)
    requires chip.Valid()
    modifies chip
    ensures chip.Valid() && chip.faults == old(chip.faults) && |chip.cells| == |old(chip.cells)|
    ensures if daddr == 0 then chip.cells == old(chip.cells)
            else SameOutside(old(chip.cells), chip.cells, daddr, daddr + 0x1000)
  {
    if daddr > 0 {
      var junk: seq<byte> := *;
      chip.cells := Garbled(chip.cells, junk, daddr, daddr + 0x1000);
    }
  }

  lemma CutIs(before: seq<byte>, sofar: seq<byte>, after: seq<byte>, src: nat, dst: nat, k: nat, n: nat)
    requires k <= n && CopyDone(before, sofar, src, dst, k, false) && |after| == |before|
    requires src + n * 0x1000 <= |before| && dst + n * 0x1000 <= |before|
    requires if k == n || dst + k * 0x1000 == 0 then after == sofar
             else SameOutside(sofar, after, dst + k * 0x1000, dst + k * 0x1000 + 0x1000)
    ensures CutShort(before, after, src, dst, n)
  {
    if k < n {
      assert CutAt(before, after, src, dst, k);
    }
  }

  /** copy_raw until a reset in the middle of some sector, or behind the last one. */
  method CutCopyRaw(chip: Chip, srcAddr: u32, dstAddr: u32, size: u32)
    requires chip.Valid()
    modifies chip
    ensures chip.Valid() && chip.faults >= old(chip.faults) && |chip.cells| == |old(chip.cells)|
    ensures var n := Sectors(size);
      chip.faults == old(chip.faults) && srcAddr + 1 < |chip.cells| && !GzipAt(old(chip.cells), srcAddr)
      && srcAddr + n * 0x1000 <= |chip.cells| && dstAddr + n * 0x1000 <= |chip.cells| ==>
        chip.cells == old(chip.cells) || CutShort(old(chip.cells), chip.cells, srcAddr, dstAddr, n)
  {
    hide CopyDone, CutShort, Interrupted, SameOutside, SignedLeft;
    if srcAddr % 0x1000 != 0 || dstAddr % 0x1000 != 0 {
      return;
    }
    var b0 := ReadFlashByte(chip, srcAddr);
    var b1 := ReadFlashByte(chip, srcAddr + 1);
    if b0 == 0x1f && b1 == 0x8b {
      var res := CopyGzip(chip);
      return;
    }
    var n, some: int := Sectors(size), *;
    var k: nat := if 0 <= some < n then some else n;
    var res := CopySectors(chip, srcAddr, dstAddr, k * 0x1000, false, k);
    if res == 0 {
      ghost var sofar := chip.cells;
      if k < n {
        LosePower(chip, dstAddr + k * 0x1000);
      }
      if srcAddr + n * 0x1000 <= |chip.cells| && dstAddr + n * 0x1000 <= |chip.cells| {
        CutIs(old(chip.cells), sofar, chip.cells, srcAddr, dstAddr, k, n);
      }
    }
  }

  /** main until a reset ahead of the clearing of the command: the command stays. */
  method CutBoot(chip: Chip, rtc: array<u32>)
    requires chip.Valid() && rtc.Length == EC.DW_COUNT
    modifies chip
    ensures chip.Valid() && chip.faults >= old(chip.faults) && |chip.cells| == |old(chip.cells)|
    ensures var cmd := rtc[..];
      if !EC.Accepted(cmd) || cmd[1] != EC.ACTION_COPY_RAW then chip.cells == old(chip.cells)
      else
        var src, dst, n := cmd[2], cmd[3], Sectors(cmd[4]);
        chip.faults == old(chip.faults) && src + 1 < |chip.cells| && !GzipAt(old(chip.cells), src)
        && src + n * 0x1000 <= |chip.cells| && dst + n * 0x1000 <= |chip.cells| ==>
          chip.cells == old(chip.cells) || CutShort(old(chip.cells), chip.cells, src, dst, n)
  {
    hide CutShort, Sectors, GzipAt;
    var cmd := new EC.Command(0, seq(29, _ => 0));
    var rd := cmd.Read(rtc);
    if rd == 0 && cmd.action == EC.ACTION_COPY_RAW {
      CutCopyRaw(chip, cmd.args[0], cmd.args[1], cmd.args[2]);
    }
  }
}
