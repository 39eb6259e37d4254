// cbuf: a circular byte buffer that behaves as a bounded queue of one byte less than its size.
module Cbuf {
  import opened Bytes

  // ----- the queue it stands for -----

  /** A queue of at most `capacity` bytes. */
  datatype Fifo = Fifo(capacity: nat, bytes: seq<byte>)

  datatype Op =
    | WriteByte(c: byte) | Write(src: seq<byte>)
    | ReadByte | Read(size: nat) | PeekByte | Peek(size: nat)
    | Remove(size: nat) | Flush | Resize(newSize: nat)

  /** The bytes an operation puts in. */
  function Accepted(f: Fifo, op: Op): seq<byte>
    requires |f.bytes| <= f.capacity
  {
    match op
    case WriteByte(c) => if |f.bytes| < f.capacity then [c] else []
    case Write(src) => src[..Min(|src|, f.capacity - |f.bytes|)]
    case _ => []
  }

  /** How many bytes it takes out. */
  function Drained(f: Fifo, op: Op): (n: nat)
    ensures n <= |f.bytes|
  {
    match op
    case ReadByte => Min(1, |f.bytes|)
    case Read(size) => Min(size, |f.bytes|)
    case Remove(size) => Min(size, |f.bytes|)
    case Flush => |f.bytes|
    case _ => 0
  }

  function Step(f: Fifo, op: Op): (r: Fifo)
    requires |f.bytes| <= f.capacity
    ensures |r.bytes| <= r.capacity
  {
    var capacity := if op.Resize? && op.newSize > |f.bytes| then op.newSize - 1 else f.capacity;
    Fifo(capacity, f.bytes[Drained(f, op)..] + Accepted(f, op))
  }

  lemma DrainedStep(f: Fifo, op: Op)
    requires |f.bytes| <= f.capacity && (op.Read? || op.Remove? || op.ReadByte?)
    ensures Step(f, op) == Fifo(f.capacity, f.bytes[Min(if op.ReadByte? then 1 else op.size, |f.bytes|)..])
  {
    assert f.bytes[Drained(f, op)..] + [] == f.bytes[Drained(f, op)..];
  }

  lemma ResizeStep(f: Fifo, newSize: nat)
    requires |f.bytes| <= f.capacity
    ensures Step(f, Op.Resize(newSize)) == Fifo(if newSize > |f.bytes| then newSize - 1 else f.capacity, f.bytes)
  {
    assert f.bytes[0..] + [] == f.bytes;
  }

  lemma WriteStep(f: Fifo, src: seq<byte>)
    requires |f.bytes| <= f.capacity
    ensures Step(f, Op.Write(src)) == Fifo(f.capacity, f.bytes + src[..Min(|src|, f.capacity - |f.bytes|)])
  {
    assert f.bytes[0..] == f.bytes;
  }

  function Run(f: Fifo, ops: seq<Op>): (r: Fifo)
    requires |f.bytes| <= f.capacity
    ensures |r.bytes| <= r.capacity
    decreases |ops|
  {
    if ops == [] then f else Step(Run(f, ops[..|ops| - 1]), ops[|ops| - 1])
  }

  /** All bytes put in, and all bytes taken out, over a run. */
  function AllAccepted(f: Fifo, ops: seq<Op>): seq<byte>
    requires |f.bytes| <= f.capacity
    decreases |ops|
  {
    if ops == [] then []
    else AllAccepted(f, ops[..|ops| - 1]) + Accepted(Run(f, ops[..|ops| - 1]), ops[|ops| - 1])
  }

  function AllDrained(f: Fifo, ops: seq<Op>): seq<byte>
    requires |f.bytes| <= f.capacity
    decreases |ops|
  {
    if ops == [] then []
    else
      var before := Run(f, ops[..|ops| - 1]);
      AllDrained(f, ops[..|ops| - 1]) + before.bytes[..Drained(before, ops[|ops| - 1])]
  }

  /** Over every run, resizes included, what was taken out followed by what is still there is
      what was there followed by what was put in: nothing is lost, doubled or reordered. */
  lemma {:induction false} Conserved(f: Fifo, ops: seq<Op>)
    requires |f.bytes| <= f.capacity
    ensures AllDrained(f, ops) + Run(f, ops).bytes == f.bytes + AllAccepted(f, ops)
    decreases |ops|
  {
    if ops != [] {
      var front, op := ops[..|ops| - 1], ops[|ops| - 1];
      Conserved(f, front);
      var before := Run(f, front);
      hide Drained, Accepted, Step;
      StepBytes(before, op);
      Regroup(AllDrained(f, front), before.bytes, Drained(before, op), Accepted(before, op));
      Regroup(f.bytes, AllAccepted(f, front), |AllAccepted(f, front)|, Accepted(before, op));
    }
  }

  lemma StepBytes(f: Fifo, op: Op)
    requires |f.bytes| <= f.capacity
    ensures Step(f, op).bytes == f.bytes[Drained(f, op)..] + Accepted(f, op)
  {
  }

  lemma Regroup(a: seq<byte>, b: seq<byte>, n: nat, c: seq<byte>)
    requires n <= |b|
    ensures (a + b[..n]) + (b[n..] + c) == (a + b) + c == a + (b + c)
  {
    assert b == b[..n] + b[n..];
  }

  // ----- the buffer -----

  /** The bytes from begin up to end, around the ring. */
  function Ring(cells: seq<byte>, begin: nat, end: nat): (s: seq<byte>)
    requires begin < |cells| && end < |cells|
    ensures |s| == if begin <= end then end - begin else |cells| - begin + end
  {
    if begin <= end then cells[begin..end] else cells[begin..] + cells[..end]
  }

  function Wrapped(p: nat, size: nat): nat
    requires p < 2 * size
  {
    if p < size then p else p - size
  }

  lemma RingAt(cells: seq<byte>, begin: nat, end: nat, i: nat)
    requires begin < |cells| && end < |cells| && i < |Ring(cells, begin, end)|
    ensures Ring(cells, begin, end)[i] == cells[Wrapped(begin + i, |cells|)]
  {
  }

  /** Taking n bytes from the front. */
  lemma FrontTaken(cells: seq<byte>, begin: nat, end: nat, n: nat)
    requires begin < |cells| && end < |cells| && n <= |Ring(cells, begin, end)|
    ensures var s := Ring(cells, begin, end);
      && Ring(cells, Wrapped(begin + n, |cells|), end) == s[n..]
      && s[..n] == if begin + n <= |cells| then cells[begin..begin + n]
                   else cells[begin..|cells|] + cells[0..begin + n - |cells|]
  {
    var s, b := Ring(cells, begin, end), Wrapped(begin + n, |cells|);
    var rest := Ring(cells, b, end);
    assert |rest| == |s| - n;
    forall i | 0 <= i < |rest| ensures rest[i] == s[n..][i] {
      RingAt(cells, b, end, i);
      RingAt(cells, begin, end, n + i);
    }
  }

  /** Putting bytes behind the end. */
  lemma BackPut(cells: seq<byte>, after: seq<byte>, begin: nat, end: nat, src: seq<byte>)
    requires begin < |cells| == |after| && end < |cells| && |Ring(cells, begin, end)| + |src| < |cells|
    requires forall i :: 0 <= i < |src| ==> after[Wrapped(end + i, |cells|)] == src[i]
    requires forall j :: 0 <= j < |cells| && !(end <= j < end + |src|) && !(j + |cells| < end + |src|) ==> after[j] == cells[j]
    ensures Ring(after, begin, Wrapped(end + |src|, |cells|)) == Ring(cells, begin, end) + src
  {
    var s, e := Ring(cells, begin, end), Wrapped(end + |src|, |cells|);
    var t := Ring(after, begin, e);
    assert |t| == |s| + |src|;
    forall i | 0 <= i < |t| ensures t[i] == (s + src)[i] {
      RingAt(after, begin, e, i);
      if i < |s| {
        RingAt(cells, begin, end, i);
      } else {
        assert Wrapped(begin + i, |cells|) == Wrapped(end + (i - |s|), |cells|);
      }
    }
  }

  class Buffer {
    var buf: array<byte>
    /** Where reading and writing go on. */
    var begin: nat
    var end: nat

    ghost predicate Valid()
      reads this
    {
      0 < buf.Length < 0x1_0000_0000 && begin < buf.Length && end < buf.Length
    }

    ghost function Contents(): (s: seq<byte>)
      requires Valid()
      reads this, buf
      ensures |s| < buf.Length
    {
      Ring(buf[..], begin, end)
    }

    ghost function Queue(): Fifo
      requires Valid()
      reads this, buf
    {
      Fifo(buf.Length - 1, Contents())
    }

    function Wrap(p: nat): nat
      reads this
    {
      if p == buf.Length then 0 else p
    }

    constructor (size: nat)
      requires 0 < size < 0x1_0000_0000
      ensures Valid() && Queue() == Fifo(size - 1, []) && fresh(buf)
    {
      buf := new byte[size];
      begin, end := 0, 0;
    }

    method Available() returns (n: nat)
      requires Valid()
      ensures n == |Contents()|
    {
      if end >= begin {
        return end - begin;
      }
      return buf.Length - (begin - end);
    }

    method Room() returns (n: nat)
      requires Valid()
      ensures n == buf.Length - 1 - |Contents()|
    {
      if end >= begin {
        return buf.Length - (end - begin) - 1;
      }
      return begin - end - 1;
    }

    method IsEmpty() returns (b: bool)
      requires Valid()
      ensures b <==> Contents() == []
    {
      return begin == end;
    }

    method IsFull() returns (b: bool)
      requires Valid()
      ensures b <==> |Contents()| == buf.Length - 1
    {
      return Wrap(end + 1) == begin;
    }

    method PeekByte() returns (r: int)
      requires Valid()
      ensures r == if Contents() == [] then -1 else Contents()[0] as int
    {
      var none := IsEmpty();
      if none {
        return -1;
      }
      return buf[begin];
    }

    /** peek into a destination. */
    method Peek(size: nat) returns (dst: seq<byte>)
      requires Valid()
      ensures dst == Contents()[..Min(size, |Contents()|)]
    {
      var available := Available();
      var toRead := if size < available then size else available;
      FrontTaken(buf[..], begin, end, toRead);
      hide Ring;
      var from := begin;
      dst := [];
      if end < begin && toRead > buf.Length - begin {
        var top := buf.Length - begin;
        dst := buf[begin..begin + top];
        from := 0;
        toRead := toRead - top;
      }
      dst := dst + buf[from..from + toRead];
    }

    method ReadByte() returns (r: int)
      requires Valid()
      modifies this`begin
      ensures Valid() && Queue() == Step(old(Queue()), Op.ReadByte)
      ensures r == if old(Contents()) == [] then -1 else old(Contents())[0] as int
      ensures Contents() == if old(Contents()) == [] then [] else old(Contents())[1..]
    {
      DrainedStep(Queue(), Op.ReadByte);
      hide Step;
      var none := IsEmpty();
      if none {
        return -1;
      }
      FirstByte();
      hide Ring;
      var result := buf[begin];
      Next();
      return result;
    }

    lemma FirstByte()
      requires Valid() && Contents() != []
      ensures Contents()[0] == buf[begin]
    {
      RingAt(buf[..], begin, end, 0);
    }

    method Next()
      requires Valid() && Contents() != []
      modifies this`begin
      ensures Valid() && Contents() == old(Contents())[1..]
    {
      FrontTaken(buf[..], begin, end, 1);
      hide Ring;
      begin := Wrap(begin + 1);
    }

    /** read into a destination. */
    method Read(size: nat) returns (dst: seq<byte>)
      requires Valid()
      modifies this`begin
      ensures Valid() && Queue() == Step(old(Queue()), Op.Read(size))
      ensures dst == old(Contents())[..Min(size, |old(Contents())|)]
    {
      var available := Available();
      var toRead := if size < available then size else available;
      DrainedStep(Queue(), Op.Read(size));
      hide Ring, Step;
      dst := TakeFront(toRead);
    }

    method TakeFront(n: nat) returns (dst: seq<byte>)
      requires Valid() && n <= |Contents()|
      modifies this`begin
      ensures Valid() && Contents() == old(Contents())[n..] && dst == old(Contents())[..n]
    {
      FrontTaken(buf[..], begin, end, n);
      SomeWraps(begin, end, n, buf.Length);
      hide Ring;
      dst := Take(n);
    }

    /** Copy n bytes out of the ring and step past them. */
    method Take(n: nat) returns (dst: seq<byte>)
      requires Valid() && n < buf.Length && (begin + n > buf.Length ==> end < begin)
      modifies this`begin
      ensures Valid() && begin == Wrapped(old(begin) + n, buf.Length)
      ensures dst == if old(begin) + n <= buf.Length then buf[..][old(begin)..old(begin) + n]
                     else buf[..][old(begin)..|buf[..]|] + buf[..][0..old(begin) + n - buf.Length]
    {
      var toRead := n;
      dst := [];
      if end < begin && toRead > buf.Length - begin {
        var top := buf.Length - begin;
        dst := buf[begin..begin + top];
        begin := 0;
        toRead := toRead - top;
      }
      dst := dst + buf[begin..begin + toRead];
      begin := Wrap(begin + toRead);
    }

    /** Only a queue that wraps around can be read or removed past the end of the array. */
    static lemma SomeWraps(begin: nat, end: nat, n: nat, size: nat)
      requires begin < size && end < size && n <= if begin <= end then end - begin else size - begin + end
      ensures begin + n > size ==> end < begin && begin + n - size <= end
      ensures begin + n < 2 * size
    {
    }

    method WriteByte(c: byte) returns (n: nat)
      requires Valid()
      modifies this`end, buf
      ensures Valid() && Queue() == Step(old(Queue()), Op.WriteByte(c))
      ensures Contents() == if |old(Contents())| < buf.Length - 1 then old(Contents()) + [c] else old(Contents())
      ensures n == if |old(Contents())| == buf.Length - 1 then 0 else 1
    {
      var full := IsFull();
      assert Contents()[0..] == Contents();
      if full {
        assert Contents() + [] == Contents();
        return 0;
      }
      ghost var cells, e := buf[..], end;
      assert |Contents()| < buf.Length - 1;
      hide Ring;
      buf[end] := c;
      BackPut(cells, buf[..], begin, e, [c]);
      end := Wrap(end + 1);
      return 1;
    }

    /** write from a source. */
    method Write(src: seq<byte>) returns (n: nat)
      requires Valid()
      modifies this`end, buf
      ensures Valid() && Queue() == Step(old(Queue()), Op.Write(src))
      ensures n == Min(|src|, buf.Length - 1 - |old(Contents())|)
    {
      var room := Room();
      WriteStep(Queue(), src);
      hide Ring, Step;
      n := if |src| < room then |src| else room;
      Append(src[..n]);
    }

    method Append(src: seq<byte>)
      requires Valid() && |Contents()| + |src| < buf.Length
      modifies this`end, buf
      ensures Valid() && Contents() == old(Contents()) + src
    {
      ghost var cells, e := buf[..], end;
      Put(src);
      BackPut(cells, buf[..], begin, e, src);
    }

    /** Copy bytes into the ring and step past them. */
    method Put(src: seq<byte>)
      requires Valid() && |src| < buf.Length && (end < begin ==> end + |src| < begin)
      modifies this`end, buf
      ensures Valid() && end == Wrapped(old(end) + |src|, buf.Length)
      ensures forall i :: 0 <= i < |src| ==> buf[Wrapped(old(end) + i, buf.Length)] == src[i]
      ensures forall j :: 0 <= j < buf.Length && !(old(end) <= j < old(end) + |src|) && !(j + buf.Length < old(end) + |src|) ==>
        buf[j] == old(buf[j])
    {
      var toWrite, from := |src|, 0;
      if end >= begin && toWrite > buf.Length - end {
        var top := buf.Length - end;
        Copy(end, src[..top]);
        end := 0;
        toWrite := toWrite - top;
        from := top;
      }
      Copy(end, src[from..from + toWrite]);
      end := Wrap(end + toWrite);
    }

    /** memcpy into the buffer. */
    method Copy(at: nat, bytes: seq<byte>)
      requires at + |bytes| <= buf.Length
      modifies buf
      ensures forall i :: 0 <= i < buf.Length ==>
        buf[i] == if at <= i < at + |bytes| then bytes[i - at] else old(buf[i])
    {
      forall i | 0 <= i < |bytes| {
        buf[at + i] := bytes[i];
      }
    }

    method FlushAll()
      requires Valid()
      modifies this`begin, this`end
      ensures Valid() && Queue() == Step(old(Queue()), Flush) && Contents() == []
    {
      begin, end := 0, 0;
    }

    method Remove(size: nat) returns (n: nat)
      requires Valid()
      modifies this`begin, this`end
      ensures Valid() && Queue() == Step(old(Queue()), Op.Remove(size)) && n == |Contents()|
    {
      var available := Available();
      if size >= available {
        FlushAll();
        return 0;
      }
      DrainedStep(Queue(), Op.Remove(size));
      hide Ring, Step;
      Skip(size);
      n := Available();
    }

    method Skip(n: nat)
      requires Valid() && n <= |Contents()|
      modifies this`begin
      ensures Valid() && Contents() == old(Contents())[n..]
    {
      var toRemove := n;
      ghost var start := begin;
      FrontTaken(buf[..], begin, end, n);
      SomeWraps(begin, end, n, buf.Length);
      hide Ring;
      if end < begin && toRemove > buf.Length - begin {
        var top := buf.Length - begin;
        begin := 0;
        toRemove := toRemove - top;
      }
      begin := Wrap(begin + toRemove);
      assert begin == Wrapped(start + n, buf.Length);
    }

    /** resize: never below what is stored; without memory nothing changes. */
    method Resize(newSize: nat, outOfMemory: bool) returns (size: nat)
      requires Valid() && newSize < 0x1_0000_0000
      modifies this
      ensures Valid() && size == buf.Length && (buf == old(buf) || fresh(buf))
      ensures Queue() == if outOfMemory then old(Queue()) else Step(old(Queue()), Op.Resize(newSize))
    {
      hide Step, Ring;
      ResizeStep(Queue(), newSize);
      var available := Available();
      if newSize <= available || newSize == buf.Length || outOfMemory {
        return buf.Length;
      }
      var bytes := Read(available);
      var newbuf := new byte[newSize](i requires 0 <= i < newSize => if i < |bytes| then bytes[i] else 0);
      Adopt(newbuf, available);
      assert newbuf[..available] == bytes;
      return newSize;
    }

    /** Go on with another buffer, which holds n bytes from its start on. */
    method Adopt(newbuf: array<byte>, n: nat)
      requires n < newbuf.Length < 0x1_0000_0000
      modifies this
      ensures Valid() && buf == newbuf && Contents() == newbuf[..n]
    {
      buf := newbuf;
      begin, end := 0, n;
    }

    /** resizeAdd, with the sum in 32 bits. */
    method ResizeAdd(addSize: nat, outOfMemory: bool) returns (size: nat)
      requires Valid() && addSize < 0x1_0000_0000
      modifies this
      ensures Valid() && size == buf.Length && (buf == old(buf) || fresh(buf))
      ensures Queue() == if outOfMemory then old(Queue())
                         else Step(old(Queue()), Op.Resize((old(buf.Length) + addSize) % 0x1_0000_0000))
    {
      size := Resize((buf.Length + addSize) % 0x1_0000_0000, outOfMemory);
    }
  }
}
