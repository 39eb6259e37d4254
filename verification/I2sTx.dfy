// The transmit side of I2S: eight DMA buffers played in a ring, the queue of those that were
// played, and the writer that fills them again.
module I2sTx {
  import opened Bytes

  const SLC_BUF_CNT := 8
  const SLC_BUF_LEN := 64

  /** The buffer that is played as number n. */
  function Buf(n: nat): (b: nat)
    ensures b < 8
  {
    n % 8
  }

  lemma BufTells(a: nat, b: nat)
    requires a < b < a + 8
    ensures Buf(a) != Buf(b)
  {
  }

  lemma BufRepeats(a: nat, k: nat)
    ensures Buf(a + k) == Buf(a) <==> k % 8 == 0
  {
  }

  /** The queue holds the buffers played as numbers from..to, in that order. */
  ghost predicate Holds(queue: array<nat>, from: nat, len: nat)
    reads queue
  {
    len <= queue.Length && forall i :: 0 <= i < len ==> queue[i] == Buf(from + i)
  }

  /** Buffer b is among those finished as numbers from..to, and was overwritten with silence. */
  ghost predicate Muted(from: nat, to: nat, b: nat) {
    exists k :: from <= k < to && Buf(k) == b
  }

  lemma NoneMuted(n: nat, b: nat)
    ensures !Muted(n, n, b)
  {
  }

  lemma MutedMore(from: nat, mid: nat, to: nat, b: nat)
    requires from <= mid <= to
    ensures Muted(from, to, b) <==> Muted(from, mid, b) || Muted(mid, to, b)
    ensures to == mid + 1 ==> (Muted(mid, to, b) <==> b == Buf(mid))
  {
  }

  /** A frame as it goes into DMA memory: mono frames twice, stereo frames left above right. */
  function Sample(frames: seq<int>, mono: bool, k: nat): u32
    requires |frames| >= if mono then k + 1 else 2 * k + 2
    requires forall i :: 0 <= i < |frames| ==> 0 <= frames[i] < 0x1_0000
  {
    if mono then frames[k] * 0x1_0000 + frames[k] else frames[2 * k] * 0x1_0000 + frames[2 * k + 1]
  }

  /** Taken apart again: the upper half and the lower half. */
  lemma SampleHalves(frames: seq<int>, mono: bool, k: nat)
    requires |frames| >= if mono then k + 1 else 2 * k + 2
    requires forall i :: 0 <= i < |frames| ==> 0 <= frames[i] < 0x1_0000
    ensures Sample(frames, mono, k) / 0x1_0000 == frames[if mono then k else 2 * k]
    ensures Sample(frames, mono, k) % 0x1_0000 == frames[if mono then k else 2 * k + 1]
  {
    var high, low := frames[if mono then k else 2 * k], frames[if mono then k else 2 * k + 1];
    DivUnique(high * 0x1_0000 + low, 0x1_0000, high, low);
  }

  /** A sample stored at a position of the buffer that was played as a number. */
  datatype Stored = Stored(number: nat, pos: nat, sample: u32)

  /** Its place in the order of playing: buffers are played by number. */
  function Place(x: Stored): nat {
    SLC_BUF_LEN * x.number + x.pos
  }

  ghost predicate InOrder(log: seq<Stored>) {
    forall i, j :: 0 <= i < j < |log| ==> Place(log[i]) < Place(log[j])
  }

  /** All places so far lie ahead of a position of buffer number n. */
  ghost predicate Ahead(log: seq<Stored>, n: nat, pos: nat) {
    forall i :: 0 <= i < |log| ==> Place(log[i]) < SLC_BUF_LEN * n + pos
  }

  class Tx {
    const queue: array<nat>
    const mem: array2<u32>
    var len: nat
    var curr: Option<nat>
    var pos: nat
    /** How many buffers the DMA has finished: it is playing number `finished`. */
    var finished: nat
    /** The number under which the writer's buffer was played, and how many buffers were dropped
        from the queue since the writer took it. */
    ghost var taken: nat
    ghost var drops: nat
    /** Everything the writer has stored. */
    ghost var log: seq<Stored>

    ghost predicate Valid()
      reads this, queue
    {
      && queue.Length == SLC_BUF_CNT && mem.Length0 == SLC_BUF_CNT && mem.Length1 == SLC_BUF_LEN
      && len <= SLC_BUF_CNT - 1 && len <= finished && Holds(queue, finished - len, len)
      && pos <= SLC_BUF_LEN
      && (curr.Some? ==> curr.value == Buf(taken) && taken + 1 + drops + len == finished)
      && InOrder(log) && (if curr.Some? then Ahead(log, taken, pos) else log == [])
    }

    /** Samples the writer can store without another buffer being finished. */
    function Space(): int
      reads this
    {
      (if curr.Some? then SLC_BUF_LEN - pos else 0) + SLC_BUF_LEN * len
    }

    predicate IsFull()
      reads this
    {
      (pos == SLC_BUF_LEN || curr == None) && len == 0
    }

    /** i2s_is_empty. */
    predicate IsEmpty()
      reads this
    {
      len >= SLC_BUF_CNT - 1
    }

    constructor ()
      ensures Valid() && fresh(queue) && fresh(mem) && len == finished == 0 && curr == None && log == []
    {
      queue := new nat[8];
      mem := new u32[8, 64]((i, j) => 0);
      len, curr, pos, finished, taken, drops, log := 0, None, 0, 0, 0, 0, [];
    }

    /** i2s_slc_queue_next_item. */
    method NextItem() returns (item: nat)
      requires queue.Length == SLC_BUF_CNT && 0 < len <= SLC_BUF_CNT && len <= finished
      requires Holds(queue, finished - len, len)
      modifies this`len, queue
      ensures len == old(len) - 1 && item == Buf(finished - old(len)) && Holds(queue, finished - len, len)
    {
      item := queue[0];
      len := len - 1;
      ghost var from := finished - len - 1;
      var i := 0;
      while i < len
        invariant 0 <= i <= len && len == old(len) - 1
        invariant forall k :: 0 <= k < i ==> queue[k] == Buf(from + 1 + k)
        invariant forall k :: i <= k < len + 1 ==> queue[k] == Buf(from + k)
      {
        queue[i] := queue[i + 1];
        i := i + 1;
      }
    }

    /** The DMA finishes a buffer, and the interrupt handler runs. */
    method Isr()
      requires Valid()
      modifies this, queue, mem
      ensures Valid() && finished == old(finished) + 1 && curr == old(curr) && pos == old(pos) && log == old(log)
      ensures taken == old(taken) && len == (if old(len) == 7 then 7 else old(len) + 1)
      ensures drops == old(drops) + if old(len) == 7 then 1 else 0
      ensures forall b, i :: 0 <= b < 8 && 0 <= i < 64 ==>
        mem[b, i] == if b == Buf(old(finished)) then 0 else old(mem[b, i])
    {
      hide Buf, Holds, InOrder, Ahead;
      Mute(Buf(finished));
      Enqueue(Buf(finished));
    }

    /** The finished buffer is overwritten with silence. */
    method Mute(item: nat)
      requires mem.Length0 == SLC_BUF_CNT && mem.Length1 == SLC_BUF_LEN && item < 8
      modifies mem
      ensures forall b, i :: 0 <= b < 8 && 0 <= i < 64 ==> mem[b, i] == if b == item then 0 else old(mem[b, i])
    {
      forall i | 0 <= i < 64 {
        mem[item, i] := 0;
      }
    }

    /** It joins the queue, in place of the oldest one if seven wait. */
    method Enqueue(item: nat)
      requires Valid() && item == Buf(finished)
      modifies this`len, this`finished, this`drops, queue
      ensures Valid() && finished == old(finished) + 1
      ensures len == (if old(len) == 7 then 7 else old(len) + 1)
      ensures drops == old(drops) + if old(len) == 7 then 1 else 0
    {
      hide Buf, InOrder, Ahead;
      if len >= SLC_BUF_CNT - 1 {
        var dropped := NextItem();
        drops := drops + 1;
      }
      queue[len] := item;
      len := len + 1;
      finished := finished + 1;
    }

    /** Any number of buffers may be finished where the writer can be interrupted. */
    method Interrupts(atLeastOne: bool)
      requires Valid()
      modifies this, queue, mem
      ensures Valid() && curr == old(curr) && pos == old(pos) && taken == old(taken) && log == old(log)
      ensures finished >= old(finished) && len >= old(len) && drops >= old(drops)
      ensures atLeastOne ==> len > 0
      ensures forall b, i :: 0 <= b < 8 && 0 <= i < 64 ==>
        mem[b, i] == if Muted(old(finished), finished, b) then 0 else old(mem[b, i])
    {
      hide Holds, InOrder, Ahead, Buf, Muted;
      var n: int := *;
      if atLeastOne && n <= 0 {
        n := 1;
      }
      var k := 0;
      forall b: nat ensures !Muted(finished, finished, b) {
        NoneMuted(finished, b);
      }
      while k < n
        invariant forall b, i :: 0 <= b < 8 && 0 <= i < 64 ==>
          mem[b, i] == if Muted(old(finished), finished, b) then 0 else old(mem[b, i])
        invariant Valid() && curr == old(curr) && pos == old(pos) && taken == old(taken) && log == old(log)
        invariant finished >= old(finished) && len >= old(len) && drops >= old(drops)
        invariant k > 0 ==> len > 0
      {
        ghost var mid := finished;
        Isr();
        forall b: nat ensures Muted(old(finished), finished, b) <==> Muted(old(finished), mid, b) || b == Buf(mid) {
          MutedMore(old(finished), mid, finished, b);
        }
        k := k + 1;
      }
    }

    /** The DMA plays a buffer that is never in the queue. */
    lemma PlayingIsNotQueued(i: nat)
      requires Valid() && i < len
      ensures queue[i] != Buf(finished)
    {
      BufTells(finished - len + i, finished);
    }

    /** The writer is in the buffer being played exactly when the queue length and the drops
        since it took its buffer say so; without a drop, exactly when i2s_is_empty reports it. */
    lemma SharesExact()
      requires Valid() && curr.Some?
      ensures curr.value == Buf(finished) <==> (len + 1 + drops) % 8 == 0
      ensures drops == 0 ==> (curr.value == Buf(finished) <==> IsEmpty())
    {
      BufRepeats(taken, len + 1 + drops);
    }

    /** Take the oldest buffer from the queue: the next one played after the writer's last, but
        for the dropped ones. */
    method TakeBuffer()
      requires Valid() && len > 0
      modifies this, queue
      ensures Valid() && curr.Some? && pos == 0 && drops == 0 && len == old(len) - 1 && finished == old(finished)
      ensures log == old(log) && (old(curr).Some? ==> taken == old(taken) + 1 + old(drops))
      ensures Space() >= old(Space()) - if old(curr).Some? then SLC_BUF_LEN - old(pos) else 0
    {
      ghost var number := finished - len;
      var item := NextItem();
      curr, pos := Some(item), 0;
      taken, drops := number, 0;
    }

    /** _i2s_write_sample. */
    method WriteSample(sample: u32, nb: bool) returns (ok: bool)
      requires Valid()
      modifies this, queue, mem
      ensures Valid() && (!ok ==> nb && IsFull() && pos == old(pos) && curr == old(curr))
      ensures ok ==> curr.Some? && 0 < pos <= SLC_BUF_LEN && mem[curr.value, pos - 1] == sample
      ensures log == old(log) + if ok then [Stored(taken, pos - 1, sample)] else []
      ensures ok && old(curr).Some? && old(pos) < SLC_BUF_LEN ==> curr == old(curr) && pos == old(pos) + 1
      ensures old(Space()) > 0 ==> ok
    {
      hide Holds, Buf;
      Interrupts(false);
      if pos == SLC_BUF_LEN || curr == None {
        if len == 0 {
          if nb {
            return false;
          }
          Interrupts(true);
        }
        TakeBuffer();
      }
      Store(sample);
      return true;
    }

    /** One sample goes into the writer's buffer. */
    method Store(sample: u32)
      requires Valid() && curr.Some? && pos < SLC_BUF_LEN
      modifies this`pos, this`log, mem
      ensures Valid() && pos == old(pos) + 1 && log == old(log) + [Stored(taken, old(pos), sample)]
      ensures forall b, i :: 0 <= b < 8 && 0 <= i < 64 ==>
        mem[b, i] == if b == curr.value && i == old(pos) then sample else old(mem[b, i])
    {
      hide Holds;
      mem[curr.value, pos] := sample;
      log := log + [Stored(taken, pos, sample)];
      pos := pos + 1;
    }

    /** The inner loop of _i2s_write_buffer. The samples stay where they were put, unless the
        DMA has meanwhile finished the writer's own buffer. */
    method Fill(frames: seq<int>, mono: bool, from: nat, fc: nat)
      requires Valid() && curr.Some? && pos + fc <= SLC_BUF_LEN
      requires |frames| >= if mono then from + fc else 2 * (from + fc)
      requires forall i :: 0 <= i < |frames| ==> 0 <= frames[i] < 0x1_0000
      modifies this, queue, mem
      ensures Valid() && curr == old(curr) && pos == old(pos) + fc && taken == old(taken)
      ensures finished >= old(finished) && len >= old(len) && drops >= old(drops)
      ensures |log| == |old(log)| + fc && old(log) <= log
      ensures forall j :: |old(log)| <= j < |log| ==>
        log[j] == Stored(taken, old(pos) + (j - |old(log)|), Sample(frames, mono, from + (j - |old(log)|)))
      ensures !Muted(old(finished), finished, curr.value) ==>
        forall j :: old(pos) <= j < pos ==> mem[curr.value, j] == Sample(frames, mono, from + (j - old(pos)))
    {
      hide Holds, InOrder, Ahead, Buf, Muted;
      var i := 0;
      while i < fc
        invariant 0 <= i <= fc && Valid() && curr == old(curr) && pos == old(pos) + i && taken == old(taken)
        invariant finished >= old(finished) && len >= old(len) && drops >= old(drops)
        invariant |log| == |old(log)| + i && old(log) <= log
        invariant forall j :: |old(log)| <= j < |log| ==>
          log[j] == Stored(taken, old(pos) + (j - |old(log)|), Sample(frames, mono, from + (j - |old(log)|)))
        invariant !Muted(old(finished), finished, curr.value) ==>
          forall j :: old(pos) <= j < pos ==> mem[curr.value, j] == Sample(frames, mono, from + (j - old(pos)))
      {
        ghost var mid := finished;
        Interrupts(false);
        MutedMore(old(finished), mid, finished, curr.value);
        if mono {
          var v := frames[from + i];
          Store(v * 0x1_0000 + v);
        } else {
          var v1, v2 := frames[2 * (from + i)], frames[2 * (from + i) + 1];
          Store(v1 * 0x1_0000 + v2);
        }
        i := i + 1;
      }
    }

    /** _i2s_write_buffer: all frames, or, when it must not wait, at least as many as there was
        space for, and fewer only when the buffers are full. */
    method WriteBuffer(frames: seq<int>, frameCount: nat, mono: bool, nb: bool) returns (written: nat)
      requires Valid() && |frames| >= if mono then frameCount else 2 * frameCount
      requires forall i :: 0 <= i < |frames| ==> 0 <= frames[i] < 0x1_0000
      modifies this, queue, mem
      ensures Valid() && written <= frameCount
      ensures |log| == |old(log)| + written && old(log) <= log
      ensures forall j :: |old(log)| <= j < |log| ==> log[j].sample == Sample(frames, mono, j - |old(log)|)
      ensures written < frameCount ==> nb && IsFull() && written >= old(Space())
    {
      hide InOrder, Ahead, Holds, Buf;
      written := 0;
      var left := frameCount;
      while left > 0
        invariant Valid() && 0 <= left <= frameCount && written + left == frameCount && written + Space() >= old(Space())
        invariant |log| == |old(log)| + written && old(log) <= log
        invariant forall j :: |old(log)| <= j < |log| ==> log[j].sample == Sample(frames, mono, j - |old(log)|)
        decreases left, if pos == SLC_BUF_LEN || curr == None then 1 else 0
      {
        Interrupts(false);
        if pos == SLC_BUF_LEN || curr == None {
          if len == 0 {
            if nb {
              break;
            }
            Interrupts(true);
          }
          TakeBuffer();
        }
        var available := SLC_BUF_LEN - pos;
        var fc := if available < left then available else left;
        Fill(frames, mono, written, fc);
        left := left - fc;
        written := written + fc;
      }
    }
  }
}
