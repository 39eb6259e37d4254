// The boot command in RTC memory: eboot_command.c and its application-side twin
// core_esp8266_eboot_command.cpp.
module EbootCommand {
  import opened Bytes
  import opened Crc32

  const ACTION_COPY_RAW: u32 := 0x0000_0001
  const ACTION_LOAD_APP: u32 := 0xffff_ffff
  const EBOOT_MAGIC: u32 := 0xeb00_1000

  /** The test magic & 0xfffff000 == EBOOT_MAGIC: the low twelve bits do not matter. */
  predicate MagicMatches(magic: u32) {
    magic - magic % 0x1000 == EBOOT_MAGIC
  }

  /** Number of 32-bit words of the structure, the last one being its CRC. */
  const DW_COUNT := 32

  /** Words as they lie in memory. */
  function Flatten(words: seq<u32>): seq<byte> {
    seq(4 * |words|, i requires 0 <= i < 4 * |words| => WordBytes(words[i / 4])[i % 4])
  }

  /** The CRC-32 of a byte string from the usual start value, as a word. */
  function CrcWord(data: seq<byte>): u32 {
    Crc(0xffff_ffff, data) as int
  }

  function CommandCrc(words: seq<u32>): u32
    requires |words| == DW_COUNT
  {
    CrcWord(Flatten(words[..DW_COUNT - 1]))
  }

  /** What the boot loader accepts as a command. */
  predicate Accepted(words: seq<u32>)
    requires |words| == DW_COUNT
  {
    MagicMatches(words[0]) && words[DW_COUNT - 1] == CommandCrc(words)
  }

  /** The structure, updated in place by its own writer. */
  class Command {
    var magic: u32
    var action: u32
    var args: seq<u32>
    var crc32: u32

    ghost predicate Valid()
      reads this
    {
      |args| == 29
    }

    function Words(): (w: seq<u32>)
      requires Valid()
      reads this
      ensures |w| == DW_COUNT
    {
      [magic, action] + args + [crc32]
    }

    constructor (action: u32, args: seq<u32>)
      requires |args| == 29
      ensures Valid() && this.action == action && this.args == args
    {
      this.action := action;
      this.args := args;
    }

    method CalculateCrc32() returns (r: u32)
      requires Valid()
      ensures r == CommandCrc(Words())
    {
      var crc := CrcUpdate(0xffff_ffff, Flatten(Words()[..DW_COUNT - 1]));
      r := crc as int;
    }

    /** eboot_command_read: 0 exactly when the memory holds an acceptable command. */
    method Read(rtc: array<u32>) returns (res: int)
      requires Valid() && rtc.Length == DW_COUNT
      modifies this
      ensures Valid() && Words() == rtc[..]
      ensures res == if Accepted(rtc[..]) then 0 else 1
    {
      magic := rtc[0];
      action := rtc[1];
      args := [];
      var i := 2;
      while i < DW_COUNT - 1
        invariant 2 <= i <= DW_COUNT - 1 && args == rtc[2..i]
        invariant magic == rtc[0] && action == rtc[1]
      {
        args := args + [rtc[i]];
        i := i + 1;
      }
      crc32 := rtc[DW_COUNT - 1];
      assert Words() == rtc[..];
      var crc := CalculateCrc32();
      if !MagicMatches(magic) || crc32 != crc {
        return 1;
      }
      return 0;
    }

    /** eboot_command_write: the memory ends up holding this action and these arguments in a
        form the boot loader accepts. */
    method Write(rtc: array<u32>)
      requires Valid() && rtc.Length == DW_COUNT
      modifies this, rtc
      ensures Valid() && action == old(action) && args == old(args)
      ensures rtc[..] == Stored(action, args) == Words()
    {
      magic := EBOOT_MAGIC;
      ghost var start := Words()[..DW_COUNT - 1];
      assert start == [EBOOT_MAGIC, action] + args;
      crc32 := CalculateCrc32();
      var src := Words();
      assert src[..DW_COUNT - 1] == start;
      var i := 0;
      while i < DW_COUNT
        modifies rtc
        invariant 0 <= i <= DW_COUNT && rtc[..i] == src[..i]
      {
        rtc[i] := src[i];
        i := i + 1;
      }
      assert rtc[..] == src;
    }
  }

  /** eboot_command_clear. */
  method Clear(rtc: array<u32>)
    requires rtc.Length == DW_COUNT
    modifies rtc
    ensures rtc[..] == old(rtc[..])[0 := 0][DW_COUNT - 1 := 0]
  {
    rtc[0] := 0;
    rtc[DW_COUNT - 1] := 0;
  }

  /** The memory after a command was written. */
  function Stored(action: u32, args: seq<u32>): (w: seq<u32>)
    requires |args| == 29
    ensures |w| == DW_COUNT
  {
    var front := [EBOOT_MAGIC, action] + args;
    front + [CrcWord(Flatten(front))]
  }

  /** Round trip: what was written is accepted and reads back unchanged. */
  lemma StoredIsAccepted(action: u32, args: seq<u32>)
    requires |args| == 29
    ensures var w := Stored(action, args); Accepted(w) && w[1] == action && w[2..DW_COUNT - 1] == args
  {
    var w := Stored(action, args);
    assert w[..DW_COUNT - 1] == [EBOOT_MAGIC, action] + args;
  }

  /** A cleared command is never accepted, whatever the other words hold. */
  lemma ClearedIsRejected(w: seq<u32>)
    requires |w| == DW_COUNT
    ensures !Accepted(w[0 := 0][DW_COUNT - 1 := 0])
  {
  }

  /** Corruption of an accepted command confined to any 32 consecutive bits ahead of the CRC
      word, in the order the CRC reads them, is rejected. */
  lemma BurstIsRejected(w: seq<u32>, v: seq<u32>, start: nat)
    requires |w| == |v| == DW_COUNT && Accepted(w) && v != w
    requires v[DW_COUNT - 1] == w[DW_COUNT - 1]
    requires var a, b := Bits(Flatten(w[..DW_COUNT - 1])), Bits(Flatten(v[..DW_COUNT - 1]));
      forall i :: 0 <= i < |a| && a[i] != b[i] ==> start <= i < start + 32
    ensures !Accepted(v)
  {
    var a, b := Flatten(w[..DW_COUNT - 1]), Flatten(v[..DW_COUNT - 1]);
    var k :| 0 <= k < DW_COUNT && w[k] != v[k];
    FlattenTellsWords(w[..DW_COUNT - 1], v[..DW_COUNT - 1], k);
    var i :| 0 <= i < |a| && a[i] != b[i];
    BitsTellMessages(a, b, i);
    BurstDetected(0xffff_ffff, Bits(a), Bits(b), start);
    WordsTellCrcs(Crc(0xffff_ffff, a), Crc(0xffff_ffff, b));
  }

  /** In particular, changing any one word of an accepted command makes it unacceptable. */
  lemma WordCorruptionIsRejected(w: seq<u32>, k: nat, value: u32)
    requires |w| == DW_COUNT && k < DW_COUNT && Accepted(w) && value != w[k]
    ensures !Accepted(w[k := value])
  {
    var v := w[k := value];
    var front := w[..DW_COUNT - 1];
    if k == DW_COUNT - 1 {
      assert v[..DW_COUNT - 1] == front;
    } else {
      var front' := v[..DW_COUNT - 1];
      var a, b := Flatten(front), Flatten(front');
      FlattenTellsWords(front, front', k);
      forall i | 0 <= i < |a| && a[i] != b[i] ensures 4 * k <= i < 4 * k + 4 {
        assert front[i / 4] != front'[i / 4];
      }
      FourBytesDetected(0xffff_ffff, a, b, 4 * k);
      WordsTellCrcs(Crc(0xffff_ffff, a), Crc(0xffff_ffff, b));
    }
  }

  lemma FlattenTellsWords(v: seq<u32>, w: seq<u32>, k: nat)
    requires |v| == |w| && k < |v| && v[k] != w[k]
    ensures exists i :: 0 <= i < |Flatten(v)| && Flatten(v)[i] != Flatten(w)[i]
  {
    WordRoundTrip(v[k]);
    WordRoundTrip(w[k]);
    var b, c := WordBytes(v[k]), WordBytes(w[k]);
    var j :| 0 <= j < 4 && b[j] != c[j];
    assert Flatten(v)[4 * k + j] != Flatten(w)[4 * k + j];
  }
}
