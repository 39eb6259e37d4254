// Stream::sendGeneric: three ways to move bytes from a source to a sink, which must agree.
module StreamSend {
  import opened Bytes

  datatype Report = Success | TimedOut | ShortOperation | WriteError | ReadError

  // ----- what a transfer should do -----

  /** Where the delimiter first stands; the length where it does not, or where there is none. */
  function Position(s: seq<byte>, until: int): (p: nat)
    ensures p <= |s| && (p < |s| ==> s[p] == until)
    ensures forall i :: 0 <= i < p ==> s[i] != until
  {
    if s == [] || s[0] == until then 0 else 1 + Position(s[1..], until)
  }

  /** How many bytes go through: up to the limit, if there is one, and up to the delimiter. */
  function Count(s: seq<byte>, maxLen: nat, until: int): (n: nat)
    ensures n <= |s| && (maxLen > 0 ==> n <= maxLen) && forall i :: 0 <= i < n ==> s[i] != until
    ensures n == |s| || s[n] == until || n == maxLen > 0
  {
    var p := Position(s, until);
    if maxLen > 0 && maxLen < p then maxLen else p
  }

  /** The delimiter is taken too when it is next and the limit is not reached. */
  predicate Swallows(s: seq<byte>, maxLen: nat, until: int) {
    var n := Count(s, maxLen, until);
    n < |s| && s[n] == until && (maxLen == 0 || n < maxLen)
  }

  // ----- the devices -----

  /** A source: the bytes it has yet to give, of which some may be there already, or all, as in
      a string. */
  class Source {
    const canTimeout: bool
    const allThere: bool
    var rest: seq<byte>

    constructor (canTimeout: bool, allThere: bool, bytes: seq<byte>)
      ensures this.canTimeout == canTimeout && this.allThere == allThere && rest == bytes
    {
      this.canTimeout, this.allThere, rest := canTimeout, allThere, bytes;
    }

    method Available() returns (n: nat)
      ensures n <= |rest| && (!canTimeout && rest != [] ==> n > 0) && (allThere ==> n == |rest|)
    {
      var some: int := *;
      n := if !allThere && (0 < some <= |rest| || (canTimeout && some == 0)) then some else |rest|;
    }

    method PeekBuffer(n: nat) returns (bytes: seq<byte>)
      requires n <= |rest|
      ensures bytes == rest[..n]
    {
      bytes := rest[..n];
    }

    method PeekConsume(n: nat)
      requires n <= |rest|
      modifies this
      ensures rest == old(rest)[n..]
    {
      rest := rest[n..];
    }

    /** read(): the next byte, or -1. */
    method Read() returns (c: int)
      modifies this
      ensures c == -1 || (old(rest) != [] && c == old(rest)[0] as int)
      ensures rest == if c == -1 then old(rest) else old(rest)[1..]
      ensures c == -1 ==> canTimeout || rest == []
    {
      var n := Available();
      if n == 0 {
        return -1;
      }
      c := rest[0];
      rest := rest[1..];
    }

    /** read into a buffer of what is available: at least one byte, or -1 for an error. */
    method ReadBytes(n: nat, ghost available: nat) returns (r: int, bytes: seq<byte>)
      requires 0 < n <= available <= |rest|
      modifies this
      ensures -1 <= r <= n && bytes == old(rest)[..if r < 0 then 0 else r]
      ensures rest == old(rest)[|bytes|..]
      ensures r != 0
    {
      r := *;
      if !(-1 <= r <= n) || r == 0 {
        r := n;
      }
      var k := if r < 0 then 0 else r;
      bytes, rest := rest[..k], rest[k..];
    }
  }

  /** A sink: any announcements of room, and any number of bytes taken of an offer made behind
      announcement k. */
  class Sink {
    const canTimeout: bool
    const room: nat -> nat
    const takes: (nat, nat) -> nat
    var announced: nat
    var got: seq<byte>

    constructor (canTimeout: bool, room: nat -> nat, takes: (nat, nat) -> nat, announced: nat)
      ensures this.canTimeout == canTimeout && this.room == room && this.takes == takes
      ensures this.announced == announced && got == []
    {
      this.canTimeout, this.room, this.takes, this.announced, got := canTimeout, room, takes, announced, [];
    }

    /** It takes all it is given; all offers it has announced room for; all of these but the ones
        that would use up the room; every single byte. */
    ghost predicate TakesAll() {
      forall k: nat, n: nat :: takes(k, n) >= n
    }

    ghost predicate TakesItsRoom() {
      forall k: nat, n: nat :: n <= room(k) ==> takes(k, n) >= n
    }

    ghost predicate TakesBelowRoom() {
      forall k: nat, n: nat :: n < room(k) ==> takes(k, n) >= n
    }

    /** Without room it is worth waiting for. */
    ghost predicate Open() {
      canTimeout || forall k: nat :: room(k) > 0
    }

    ghost predicate TakesBytes() {
      forall k: nat :: takes(k, 1) >= 1
    }

    lemma Weaker()
      ensures TakesAll() ==> TakesItsRoom() && TakesBytes()
      ensures TakesItsRoom() ==> TakesBelowRoom()
    {
    }

    method AvailableForWrite() returns (n: nat)
      modifies this`announced
      ensures n == room(old(announced)) && announced == old(announced) + 1
      ensures Open() && n == 0 ==> canTimeout
    {
      n := room(announced);
      announced := announced + 1;
    }

    method WriteByte(c: byte) returns (n: nat)
      requires announced > 0
      modifies this`got
      ensures n <= 1 && got == old(got) + [c][..n] && (TakesBytes() ==> n == 1)
    {
      n := Write([c]);
    }

    method Write(bytes: seq<byte>) returns (n: nat)
      requires announced > 0
      modifies this`got
      ensures n == Min(|bytes|, takes(announced - 1, |bytes|)) && got == old(got) + bytes[..n]
    {
      n := Min(|bytes|, takes(announced - 1, |bytes|));
      got := got + bytes[..n];
    }
  }

  /** The timeout of a transfer: it may fire at any poll, and some time after its last reset it
      does. */
  class Timer {
    var patience: nat
    /** What the last poll answered. */
    ghost var fired: bool

    method Restart()
      modifies this
    {
      var some: int := *;
      patience := if some >= 0 then some else 0;
    }

    method Fires() returns (late: bool)
      modifies this
      ensures late == fired && (!late ==> patience < old(patience))
    {
      late := *;
      if patience == 0 {
        fired := true;
        return true;
      }
      patience := patience - 1;
      fired := late;
    }
  }

  // ----- the three transfers -----

  /** The delimiter as memchr looks for it, as a byte; no byte, if there is none. */
  function AsByte(until: int): (d: int)
    ensures d == -1 || 0 <= d < 0x100
  {
    if until < 0 then -1 else until % 0x100
  }

  /** The byte-wise transfer compares whole integers: the two look for the same exactly when
      the delimiter is a byte, or there is none. */
  lemma DelimitersAgreeExact(until: int)
    ensures (forall s: seq<byte> :: Position(s, AsByte(until)) == Position(s, until)) <==> until < 0x100
  {
    if until < 0x100 {
      forall s: seq<byte> ensures Position(s, AsByte(until)) == Position(s, until) {
        var p := Position(s, AsByte(until));
        Found(s, until, p);
      }
    } else {
      var s: seq<byte> := [AsByte(until)];
      assert Position(s, AsByte(until)) == 0 && Position(s, until) != 0;
    }
  }

  /** One look at the peek buffer: how much to offer the sink, and whether the delimiter was
      seen behind that. */
  method FindDelimiter(direct: seq<byte>, until: int) returns (w: nat, found: bool)
    ensures w == Position(direct, AsByte(until)) && (found <==> w < |direct|)
  {
    w, found := |direct|, false;
    if until >= 0 {
      var k := 0;
      while k < |direct|
        invariant 0 <= k <= |direct| && forall i :: 0 <= i < k ==> direct[i] != until % 0x100
      {
        if direct[k] == until % 0x100 {
          Found(direct, until % 0x100, k);
          return k, true;
        }
        k := k + 1;
      }
    }
    Found(direct, AsByte(until), |direct|);
  }

  lemma Found(s: seq<byte>, until: int, k: nat)
    requires k <= |s| && (forall i :: 0 <= i < k ==> s[i] != until) && (k < |s| ==> s[k] == until)
    ensures Position(s, until) == k
  {
  }

  /** What every transfer keeps to, whatever times out or fails: a prefix of the source, not
      beyond the limit or the delimiter, has reached the sink; `eaten` was taken from the source
      behind it without reaching the sink. */
  ghost predicate Moved(s: seq<byte>, rest: seq<byte>, before: seq<byte>, got: seq<byte>, written: nat, eaten: seq<byte>,
                        maxLen: nat, until: int) {
    && written <= Count(s, maxLen, until) && got == before + s[..written]
    && written + |eaten| <= |s| && eaten == s[written..written + |eaten|] && rest == s[written + |eaten|..]
  }

  /** The transfer was complete: everything asked for, and the delimiter if it was next. */
  ghost predicate Complete(s: seq<byte>, written: nat, eaten: seq<byte>, maxLen: nat, until: int) {
    written == Count(s, maxLen, until) && (if Swallows(s, maxLen, until) then |eaten| == 1 else eaten == [])
  }

  lemma NothingMoved(s: seq<byte>, before: seq<byte>, maxLen: nat, until: int)
    ensures Moved(s, s, before, before, 0, [], maxLen, until)
  {
  }

  lemma CountMore(s: seq<byte>, written: nat, w: nat, maxLen: nat, until: int)
    requires written <= Count(s, maxLen, until) && w <= Position(s[written..], until)
    requires maxLen > 0 ==> written + w <= maxLen
    ensures written + w <= Count(s, maxLen, until)
  {
    var p := Position(s, until);
    assert forall i :: written <= i < written + w ==> s[i] == s[written..][i - written];
  }

  /** w more bytes, none of them the delimiter. */
  lemma MovedMore(s: seq<byte>, rest: seq<byte>, before: seq<byte>, got: seq<byte>, written: nat, w: nat, maxLen: nat,
                  until: int)
    requires Moved(s, rest, before, got, written, [], maxLen, until) && w <= Position(rest, until)
    requires maxLen > 0 ==> written + w <= maxLen
    ensures Moved(s, rest[w..], before, got + rest[..w], written + w, [], maxLen, until)
  {
    assert rest == s[written..];
    CountMore(s, written, w, maxLen, until);
    hide Count, Position;
    assert s[..written + w] == s[..written] + rest[..w];
  }

  /** k more bytes taken away without reaching the sink. */
  lemma MovedEaten(s: seq<byte>, rest: seq<byte>, before: seq<byte>, got: seq<byte>, written: nat, k: nat, maxLen: nat,
                   until: int)
    requires Moved(s, rest, before, got, written, [], maxLen, until) && k <= |rest|
    ensures Moved(s, rest[k..], before, got, written, rest[..k], maxLen, until)
  {
  }

  /** When the source is used up, or the limit reached, everything was moved. */
  lemma AllMoved(s: seq<byte>, rest: seq<byte>, before: seq<byte>, got: seq<byte>, written: nat, maxLen: nat, until: int)
    requires Moved(s, rest, before, got, written, [], maxLen, until)
    requires rest == [] || (maxLen > 0 && written >= maxLen)
    ensures Complete(s, written, [], maxLen, until)
  {
  }

  /** When the delimiter was next and was eaten. */
  lemma DelimiterEaten(s: seq<byte>, rest: seq<byte>, before: seq<byte>, got: seq<byte>, written: nat, maxLen: nat, until: int)
    requires Moved(s, rest, before, got, written, [], maxLen, until)
    requires rest != [] && rest[0] == until && (maxLen > 0 ==> written < maxLen)
    ensures Complete(s, written, [rest[0]], maxLen, until)
  {
    Found(s, until, written);
  }

  /** The report at the end of a transfer without errors: always success when there is no limit;
      with one, late when there is a timeout and the last poll found it expired, and else success
      exactly when as much as asked for was written. */
  ghost predicate Reports(report: Report, len: int, written: nat, timeoutMs: nat, late: bool) {
    && report in {Success, TimedOut, ShortOperation}
    && (report == Success <==> len < 0 || (written == len && (timeoutMs == 0 || !late)))
    && (report == TimedOut <==> len > 0 && timeoutMs != 0 && late)
  }

  /** The report at the end: success means that all that was asked for was written. */
  method FinalReport(timer: Timer, soFar: Report, maxLen: nat, len: int, written: nat, timeoutMs: nat)
    returns (report: Report)
    modifies timer
    ensures soFar != Success ==> report == soFar
    ensures report == Success ==> soFar == Success && (maxLen > 0 ==> written == len)
    ensures maxLen == 0 ==> report == soFar
    ensures soFar == Success && report == ShortOperation ==> written != len
    ensures soFar == Success ==> report in {Success, ShortOperation, TimedOut}
    ensures soFar == Success && report == TimedOut ==> timeoutMs != 0
    ensures soFar == Success && len != 0 && maxLen == (if len > 0 then len else 0) ==>
      Reports(report, len, written, timeoutMs, timer.fired)
  {
    report := soFar;
    if soFar == Success && maxLen > 0 {
      var fired := timer.Fires();
      if timeoutMs != 0 && fired {
        report := TimedOut;
      } else if written != len {
        report := ShortOperation;
      }
    }
  }

  /** Offer n bytes of the peek buffer, up to the delimiter, and consume what the sink took.
      `short`: the delimiter was in view, and the sink took less than the bytes ahead of it. */
  method OfferPeeked(source: Source, to: Sink, n: nat, until: int) returns (w: nat, foundChar: bool, ghost short: bool)
    requires 0 < n <= |source.rest| && to.announced > 0 && n <= to.room(to.announced - 1)
    modifies source, to`got
    ensures var d, p := AsByte(until), Position(old(source.rest), AsByte(until));
      && w <= n && w <= p && (foundChar <==> p < n)
      && (foundChar ==> w == Min(p, to.takes(to.announced - 1, p)) && source.rest != [])
      && (short <==> foundChar && w < p)
      && (foundChar && !short ==> source.rest[0] == d)
      && (foundChar && short ==> source.rest[0] != d)
    ensures to.got == old(to.got) + old(source.rest)[..w] && source.rest == old(source.rest)[w..]
    ensures to.TakesBelowRoom() ==> !short
  {
    ghost var rest := source.rest;
    var direct := source.PeekBuffer(n);
    w, foundChar := FindDelimiter(direct, until);
    DelimiterAhead(rest, direct, AsByte(until));
    ghost var offered := w;
    if w > 0 {
      w := to.Write(direct[..w]);
      if w > 0 {
        source.PeekConsume(w);
      }
    }
    short := foundChar && w < offered;
    SameFront(rest, direct, offered, w);
    if foundChar {
      SameNext(rest, direct, w);
    }
  }

  /** The delimiter is within the limit and within the room. */
  ghost predicate InSight(s: seq<byte>, room: nat, maxLen: nat, until: int) {
    var p := Position(s, AsByte(until));
    p < |s| && p < room && (maxLen == 0 || p < maxLen)
  }

  /** What a transfer comes to when its first look finds the delimiter, and the sink would take
      `took` of the data ahead of it. */
  ghost predicate Settled(s: seq<byte>, until: int, took: nat, written: nat, eaten: seq<byte>, short: bool) {
    var p := Position(s, AsByte(until));
    written == Min(p, took) && written < |s| && eaten == [s[written]] && (short <==> took < p)
  }

  lemma SightIsKept(s: seq<byte>, room: nat, maxLen: nat, until: int, w: nat)
    requires w == if maxLen > 0 then Min(Min(|s|, room), maxLen) else Min(|s|, room)
    ensures InSight(s, room, maxLen, until) <==> Position(s, AsByte(until)) < w
  {
  }

  lemma SightNeeds(s: seq<byte>, room: nat, maxLen: nat, until: int)
    ensures InSight(s, room, maxLen, until) ==> s != [] && room > 0
  {
  }

  lemma Settles(s: seq<byte>, until: int, took: nat, written: nat, eaten: seq<byte>, short: bool)
    requires Position(s, AsByte(until)) < |s| && written == Min(Position(s, AsByte(until)), took)
    requires |eaten| == 1 && written + 1 <= |s| && eaten == s[written..written + 1]
    requires short <==> written < Position(s, AsByte(until))
    ensures Settled(s, until, took, written, eaten, short)
  {
  }

  /** How much to offer: what there is, what there is room for, what is left of the limit. */
  method Limited(room: nat, available: nat, maxLen: nat, written: nat) returns (w: nat)
    requires maxLen > 0 ==> written <= maxLen
    ensures w == if maxLen > 0 then Min(Min(available, room), maxLen - written) else Min(available, room)
    ensures w <= room && w <= available && (maxLen > 0 ==> written + w <= maxLen)
  {
    w := Min(room, available);
    if maxLen > 0 {
      w := Min(w, maxLen - written);
    }
  }

  /** One round of the loop that has something to offer. */
  method PeekRound(source: Source, to: Sink, timer: Timer, n: nat, until: int, ghost s: seq<byte>, ghost before: seq<byte>,
                   ghost written: nat, ghost maxLen: nat)
    returns (w: nat, foundChar: bool, ghost eaten: seq<byte>, ghost short: bool)
    requires 0 < n <= |source.rest| && to.announced > 0 && n <= to.room(to.announced - 1)
    requires Moved(s, source.rest, before, to.got, written, [], maxLen, AsByte(until))
    requires maxLen > 0 ==> written + n <= maxLen
    modifies source, to`got, timer
    ensures Moved(s, source.rest, before, to.got, written + w, eaten, maxLen, AsByte(until)) && w <= n
    ensures var d, p := AsByte(until), Position(old(source.rest), AsByte(until));
      && (foundChar <==> p < n) && |eaten| == (if foundChar then 1 else 0)
      && (foundChar ==> w == Min(p, to.takes(to.announced - 1, p)))
      && (foundChar ==> written + w + 1 <= |s| && eaten == s[written + w..written + w + 1])
      && (short <==> foundChar && w < p) && (short <==> eaten != [] && eaten != [d])
    ensures foundChar && !short ==> Complete(s, written + w, eaten, maxLen, AsByte(until))
    ensures to.TakesBelowRoom() ==> !short
    ensures |source.rest| < |old(source.rest)| || (timer.patience == old(timer.patience) && source.rest == old(source.rest))
  {
    hide Position, Complete, Count, Sink.TakesBelowRoom, AsByte, Min;
    ghost var d, rest, got := AsByte(until), source.rest, to.got;
    w, foundChar, short := OfferPeeked(source, to, n, until);
    MovedMore(s, rest, before, got, written, w, maxLen, d);
    if w > 0 {
      timer.Restart();
    }
    eaten := [];
    if foundChar {
      if !short {
        DelimiterEaten(s, source.rest, before, to.got, written + w, maxLen, d);
      }
      MovedEaten(s, source.rest, before, to.got, written + w, 1, maxLen, d);
      eaten := source.rest[..1];
      source.PeekConsume(1);
    }
  }

  /** SendGenericPeekBuffer. What it takes without delivering it is the delimiter, or, when the
      sink was short, one byte of data; a sink that takes every offer smaller than its room
      never is. */
  method SendGenericPeekBuffer(source: Source, to: Sink, timer: Timer, len: int, until: int, timeoutMs: nat)
    returns (written: nat, report: Report, ghost fired: bool, ghost eaten: seq<byte>, ghost short: bool)
    requires len != 0
    modifies source, to, timer
    ensures var maxLen, d := if len > 0 then len else 0, AsByte(until);
      && Moved(old(source.rest), source.rest, old(to.got), to.got, written, eaten, maxLen, d)
      && |eaten| <= 1 && (short <==> eaten != [] && eaten != [d])
      && (!source.canTimeout && to.TakesBelowRoom() && to.Open() && !fired ==>
            Complete(old(source.rest), written, eaten, maxLen, d))
    ensures to.TakesBelowRoom() ==> !short
    // one round decides: the byte is lost exactly when the sink takes less than was ahead
    ensures var s, k := old(source.rest), old(to.announced);
      source.allThere && InSight(s, to.room(k), if len > 0 then len else 0, until) ==>
        Settled(s, until, to.takes(k, Position(s, AsByte(until))), written, eaten, short)
    ensures report == Success ==> len <= 0 || (written == len && !short)
    ensures report in {Success, ShortOperation, TimedOut} && (len < 0 ==> report == Success)
    ensures report == TimedOut ==> timeoutMs != 0
    ensures Reports(report, len, written, timeoutMs, timer.fired)
  {
    hide *;
    var maxLen: nat := if len > 0 then len else 0;
    written, fired, eaten, short := PeekLoop(source, to, timer, maxLen, until);
    report := FinalReport(timer, Success, maxLen, len, written, timeoutMs);
  }

  /** The loop of it. */
  method PeekLoop(source: Source, to: Sink, timer: Timer, maxLen: nat, until: int)
    returns (written: nat, ghost fired: bool, ghost eaten: seq<byte>, ghost short: bool)
    modifies source, to, timer
    ensures Moved(old(source.rest), source.rest, old(to.got), to.got, written, eaten, maxLen, AsByte(until))
    ensures |eaten| <= 1 && (short <==> eaten != [] && eaten != [AsByte(until)])
    ensures !source.canTimeout && to.TakesBelowRoom() && to.Open() && !fired ==>
      Complete(old(source.rest), written, eaten, maxLen, AsByte(until))
    ensures (to.TakesBelowRoom() ==> !short) && (short && maxLen > 0 ==> written < maxLen)
    ensures var s, k := old(source.rest), old(to.announced);
      source.allThere && InSight(s, to.room(k), maxLen, until) ==>
        Settled(s, until, to.takes(k, Position(s, AsByte(until))), written, eaten, short)
  {
    hide *;
    ghost var s, before, d := source.rest, to.got, AsByte(until);
    ghost var k, first := to.announced, true;
    ghost var inSight := source.allThere && InSight(s, to.room(k), maxLen, until);
    NothingMoved(s, before, maxLen, d);
    SightNeeds(s, to.room(k), maxLen, until);
    written, fired, eaten, short := 0, false, [], false;
    timer.Restart();
    while maxLen == 0 || written < maxLen
      invariant Moved(s, source.rest, before, to.got, written, [], maxLen, d) && (maxLen > 0 ==> written <= maxLen)
      invariant eaten == [] && !short && !fired
      invariant inSight ==> first
      invariant first ==> source.rest == s && written == 0 && to.announced == k
      decreases |source.rest|, timer.patience
    {
      var avpk := source.Available();
      if avpk == 0 && !source.canTimeout {
        AllMoved(s, source.rest, before, to.got, written, maxLen, d);
        break;
      }
      var w := to.AvailableForWrite();
      if w == 0 && !to.canTimeout {
        break;
      }
      w := Limited(w, avpk, maxLen, written);
      if inSight {
        SightIsKept(s, to.room(k), maxLen, until, w);
      }
      if w > 0 {
        var foundChar;
        w, foundChar, eaten, short := PeekRound(source, to, timer, w, until, s, before, written, maxLen);
        written := written + w;
        if foundChar {
          if inSight {
            Settles(s, until, to.takes(k, Position(s, d)), written, eaten, short);
          }
          break;
        }
      }
      first := false;
      var late := timer.Fires();
      if late {
        fired := true;
        break;
      }
    }
    if maxLen > 0 && written >= maxLen && eaten == [] {
      AllMoved(s, source.rest, before, to.got, written, maxLen, d);
    }
  }

  lemma SameFront(rest: seq<byte>, direct: seq<byte>, offered: nat, w: nat)
    requires direct <= rest && w <= offered <= |direct|
    ensures direct[..offered][..w] == rest[..w]
  {
  }

  lemma SameNext(rest: seq<byte>, direct: seq<byte>, w: nat)
    requires direct <= rest && w < |direct|
    ensures rest[w..] != [] && rest[w..][0] == direct[w] && rest[w..][..1] == [direct[w]]
  {
  }

  lemma DelimiterAhead(rest: seq<byte>, direct: seq<byte>, until: int)
    requires direct <= rest
    ensures Position(direct, until) <= Position(rest, until)
    ensures Position(direct, until) < |direct| ==> Position(rest, until) == Position(direct, until)
  {
    var p := Position(direct, until);
    assert forall i :: 0 <= i < |direct| ==> direct[i] == rest[i];
    if p < |direct| {
      Found(rest, until, p);
    }
  }

  /** SendGenericRegularUntil, byte by byte. A byte the sink refuses is lost, and reported. */
  method SendGenericRegularUntil(source: Source, to: Sink, timer: Timer, len: int, until: int, timeoutMs: nat)
    returns (written: nat, report: Report, ghost fired: bool, ghost eaten: seq<byte>)
    requires len != 0 && until >= 0
    modifies source, to, timer
    ensures var maxLen := if len > 0 then len else 0;
      && Moved(old(source.rest), source.rest, old(to.got), to.got, written, eaten, maxLen, until)
      && |eaten| <= 1 && (report == WriteError <==> eaten != [] && eaten != [until])
      && (!source.canTimeout && to.TakesBytes() && to.Open() && !fired ==>
            Complete(old(source.rest), written, eaten, maxLen, until))
    ensures to.TakesBytes() ==> report != WriteError
    ensures report == Success ==> len <= 0 || written == len
    ensures report == WriteError || Reports(report, len, written, timeoutMs, timer.fired)
  {
    hide *;
    var maxLen: nat := if len > 0 then len else 0;
    ghost var s, before := source.rest, to.got;
    NothingMoved(s, before, maxLen, until);
    written, fired, eaten, report := 0, false, [], Success;
    timer.Restart();
    while maxLen == 0 || written < maxLen
      invariant Moved(s, source.rest, before, to.got, written, [], maxLen, until) && (maxLen > 0 ==> written <= maxLen)
      invariant eaten == [] && !fired && report == Success
      decreases |source.rest|, timer.patience
    {
      var avr := source.Available();
      if avr == 0 && !source.canTimeout {
        AllMoved(s, source.rest, before, to.got, written, maxLen, until);
        break;
      }
      var w := to.AvailableForWrite();
      if w == 0 && !to.canTimeout {
        break;
      }
      ghost var rest, got := source.rest, to.got;
      var c := source.Read();
      if c != -1 {
        MovedEaten(s, rest, before, got, written, 1, maxLen, until);
        if c == until {
          DelimiterEaten(s, rest, before, got, written, maxLen, until);
          eaten := rest[..1];
          break;
        }
        ghost var one := [rest[0]];
        w := to.WriteByte(c);
        assert to.got == got + one[..w];
        if w != 1 {
          report := WriteError;
          eaten := rest[..1];
          SinkUnchanged(got, [rest[0]]);
          break;
        }
        OneAhead(rest, until);
        assert one[..1] == rest[..1];
        MovedMore(s, rest, before, got, written, 1, maxLen, until);
        written := written + 1;
        timer.Restart();
      }
      var late := timer.Fires();
      if late {
        fired := true;
        break;
      }
    }
    if maxLen > 0 && written >= maxLen && eaten == [] {
      AllMoved(s, source.rest, before, to.got, written, maxLen, until);
    }
    report := FinalReport(timer, report, maxLen, len, written, timeoutMs);
  }

  lemma SinkUnchanged(got: seq<byte>, bytes: seq<byte>)
    ensures got + bytes[..0] == got
  {
  }

  lemma OneAhead(rest: seq<byte>, until: int)
    requires rest != [] && rest[0] != until
    ensures Position(rest, until) >= 1 && rest[..1] == [rest[0]]
  {
  }

  /** Read and write one block of n bytes: what was read, and how much of it the sink took. */
  method MoveBlock(source: Source, to: Sink, n: nat, ghost available: nat) returns (r: int, w: nat)
    requires 0 < n <= available <= |source.rest| && to.announced > 0 && n <= to.room(to.announced - 1)
    modifies source, to`got
    ensures -1 <= r <= n && w <= (if r < 0 then 0 else r) && (to.TakesItsRoom() && r >= 0 ==> w == r)
    ensures to.got == old(to.got) + old(source.rest)[..w]
    ensures source.rest == old(source.rest)[if r < 0 then 0 else r..]
    ensures r != 0
  {
    var temp;
    r, temp := source.ReadBytes(n, available);
    w := 0;
    if r >= 0 {
      w := to.Write(temp);
    } else {
      SinkUnchanged(to.got, source.rest);
    }
  }

  /** SendGenericRegular, block by block and without a delimiter. What the sink does not take of
      a block is lost, and reported. */
  method SendGenericRegular(source: Source, to: Sink, timer: Timer, len: int, timeoutMs: nat)
    returns (written: nat, report: Report, ghost fired: bool, ghost eaten: seq<byte>)
    requires len != 0
    modifies source, to, timer
    ensures var maxLen := if len > 0 then len else 0;
      && Moved(old(source.rest), source.rest, old(to.got), to.got, written, eaten, maxLen, -1)
      && (report == WriteError <==> eaten != [])
      && (!source.canTimeout && to.TakesItsRoom() && to.Open() && !fired && report != ReadError ==>
            Complete(old(source.rest), written, eaten, maxLen, -1))
    ensures to.TakesItsRoom() ==> report != WriteError
    ensures report == Success ==> len <= 0 || written == len
    ensures report in {WriteError, ReadError} || Reports(report, len, written, timeoutMs, timer.fired)
    // a read can only fail while there is more to do
    ensures report == ReadError ==> source.rest != [] && (len < 0 || written < len)
  {
    hide *;
    var maxLen: nat := if len > 0 then len else 0;
    ghost var s, before := source.rest, to.got;
    NothingMoved(s, before, maxLen, -1);
    written, fired, eaten, report := 0, false, [], Success;
    timer.Restart();
    while maxLen == 0 || written < maxLen
      invariant Moved(s, source.rest, before, to.got, written, [], maxLen, -1) && (maxLen > 0 ==> written <= maxLen)
      invariant eaten == [] && !fired && report == Success
      decreases |source.rest|, timer.patience
    {
      var avr := source.Available();
      if avr == 0 && !source.canTimeout {
        AllMoved(s, source.rest, before, to.got, written, maxLen, -1);
        break;
      }
      var w := to.AvailableForWrite();
      if w == 0 && !to.canTimeout {
        break;
      }
      w := Limited(w, avr, maxLen, written);
      w := if 64 < w then 64 else w;
      if w > 0 {
        ghost var rest, got := source.rest, to.got;
        var r;
        r, w := MoveBlock(source, to, w, avr);
        if r < 0 {
          SinkUnchanged(got, rest);
          report := ReadError;
          break;
        }
        NoDelimiter(rest);
        MovedMore(s, rest, before, got, written, w, maxLen, -1);
        written := written + w;
        if r != w {
          MovedEaten(s, rest[w..], before, to.got, written, r - w, maxLen, -1);
          BlockRest(rest, w, r);
          eaten := rest[w..r];
          report := WriteError;
          break;
        }
        timer.Restart();
      }
      var late := timer.Fires();
      if late {
        fired := true;
        break;
      }
    }
    if maxLen > 0 && written >= maxLen && eaten == [] {
      AllMoved(s, source.rest, before, to.got, written, maxLen, -1);
    }
    report := FinalReport(timer, report, maxLen, len, written, timeoutMs);
  }

  lemma NoDelimiter(s: seq<byte>)
    ensures Position(s, -1) == |s|
  {
  }

  lemma BlockRest(rest: seq<byte>, w: nat, r: nat)
    requires w <= r <= |rest|
    ensures rest[w..][r - w..] == rest[r..] && rest[w..][..r - w] == rest[w..r]
  {
  }

  /** sendGeneric: the source's ability to be peeked decides. On a source that cannot time out,
      with an open sink that takes what it is given, and as long as no timeout fires and no read
      fails, every way is complete: the same bytes, the same rest, the same delimiter. */
  method SendGeneric(source: Source, peekable: bool, to: Sink, timer: Timer, len: int, until: int, timeoutMs: nat)
    returns (written: nat, report: Report, ghost fired: bool, ghost eaten: seq<byte>)
    modifies source, to, timer
    ensures len == 0 ==> written == 0 && eaten == [] && source.rest == old(source.rest) && to.got == old(to.got)
    ensures len != 0 ==>
      var maxLen := if len > 0 then len else 0;
      var d := if peekable then AsByte(until) else if until < 0 then -1 else until;
      && Moved(old(source.rest), source.rest, old(to.got), to.got, written, eaten, maxLen, d)
      && (!source.canTimeout && to.TakesAll() && to.Open() && !fired && report != ReadError ==>
            Complete(old(source.rest), written, eaten, maxLen, d))
      && (to.TakesAll() ==> eaten == [] || eaten == [d])
    ensures report == Success ==> len <= 0 || written == len
    ensures len != 0 ==> report in {WriteError, ReadError} || Reports(report, len, written, timeoutMs, timer.fired)
    ensures len == 0 ==> report == Success
  {
    hide Moved, Complete;
    fired, eaten := false, [];
    if len == 0 {
      return 0, Success, fired, eaten;
    }
    to.Weaker();
    hide Sink.TakesAll, Sink.TakesItsRoom, Sink.TakesBelowRoom, Sink.TakesBytes, Sink.Open, AsByte;
    if peekable {
      ghost var short;
      written, report, fired, eaten, short := SendGenericPeekBuffer(source, to, timer, len, until, timeoutMs);
    } else if until >= 0 {
      written, report, fired, eaten := SendGenericRegularUntil(source, to, timer, len, until, timeoutMs);
    } else {
      written, report, fired, eaten := SendGenericRegular(source, to, timer, len, timeoutMs);
    }
  }

  /** A complete transfer is determined: bytes delivered, delimiter taken and rest. */
  lemma CompleteIsUnique(s: seq<byte>, before: seq<byte>, maxLen: nat, until: int,
                         rest1: seq<byte>, got1: seq<byte>, n1: nat, eaten1: seq<byte>,
                         rest2: seq<byte>, got2: seq<byte>, n2: nat, eaten2: seq<byte>)
    requires Moved(s, rest1, before, got1, n1, eaten1, maxLen, until) && Complete(s, n1, eaten1, maxLen, until)
    requires Moved(s, rest2, before, got2, n2, eaten2, maxLen, until) && Complete(s, n2, eaten2, maxLen, until)
    ensures rest1 == rest2 && got1 == got2 && n1 == n2 && eaten1 == eaten2
    ensures s == s[..n1] + eaten1 + rest1
    ensures eaten1 == if Swallows(s, maxLen, until) then [until] else []
  {
  }

  // ----- where the peek buffer loses data -----

  /** One transfer of data up to a delimiter, all of it in view, to a sink of any behaviour. Data
      and delimiter come apart exactly when the sink takes all of the data. Otherwise a byte of
      data is thrown away for the delimiter, which stays, and the report is the same. */
  method PeekKeepsDataExact(data: seq<byte>, until: byte, len: int, canTimeout: bool, room: nat -> nat,
                            takes: (nat, nat) -> nat, k: nat)
    returns (got: seq<byte>, rest: seq<byte>, report: Report)
    requires |data| < room(k) && (len < 0 || |data| < len) && until !in data
    ensures takes(k, |data|) >= |data| ==> got == data && rest == []
    ensures var took := takes(k, |data|);
      took < |data| ==> got == data[..took] && rest == data[took + 1..] + [until]
    ensures report == if len < 0 then Success else ShortOperation
  {
    var source := new Source(false, true, data + [until]);
    var to := new Sink(canTimeout, room, takes, k);
    var timer := new Timer;
    Found(data + [until], until, |data|);
    hide Position, Count;
    var written;
    ghost var fired, eaten, short;
    written, report, fired, eaten, short := SendGenericPeekBuffer(source, to, timer, len, until, 0);
    got, rest := to.got, source.rest;
  }
}
