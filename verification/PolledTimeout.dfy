// Polled timers over a 32-bit tick counter that wraps around, against a clock that does not.
module PolledTimeout {
  import opened Bytes

  // ----- units -----

  /** A user unit: so many per second, on a counter of so many ticks per second. */
  datatype Unit = Unit(ticksPerSecond: nat, ticksPerSecondMax: nat, secondTh: nat)
  {
    /** The factor that makes a tick a whole number of user units, or nearly so. */
    function Compensation(): nat
      requires ticksPerSecond > 0
    {
      var fraction := secondTh % ticksPerSecond;
      if fraction == 0 then 1 else (2 * secondTh + fraction) / (2 * fraction)
    }

    function MultiplierMax(): nat
      requires ticksPerSecond > 0 && secondTh > 0
    {
      ticksPerSecondMax * Compensation() % 0x1_0000_0000 / secondTh
    }

    function Multiplier(): nat
      requires ticksPerSecond > 0 && secondTh > 0
    {
      ticksPerSecond * Compensation() % 0x1_0000_0000 / secondTh
    }
  }

  /** The units the class is used with; the fast ones count processor cycles, at 80 MHz or at
      160 MHz. */
  function CyclesPerSecond(fast: bool): nat {
    if fast then 160_000_000 else 80_000_000
  }

  function Millis(): Unit { Unit(1000, 1000, 1000) }

  function FastMillis(fast: bool): Unit { Unit(CyclesPerSecond(fast), 160_000_000, 1000) }

  function FastMicros(fast: bool): Unit { Unit(CyclesPerSecond(fast), 160_000_000, 1_000_000) }

  function FastNanos(fast: bool): Unit { Unit(CyclesPerSecond(fast), 160_000_000, 1_000_000_000) }

  /** The multiplier, the largest multiplier at any frequency, and the divider of a unit. */
  datatype Scale = Scale(multiplier: nat, multiplierMax: nat, divider: nat)

  predicate Known(s: Scale) {
    || s == Scale(1, 1, 1)
    || s == Scale(80_000, 160_000, 1) || s == Scale(160_000, 160_000, 1)
    || s == Scale(80, 160, 1) || s == Scale(160, 160, 1)
    || s == Scale(2, 4, 25) || s == Scale(4, 4, 25)
  }

  function ScaleOf(u: Unit): Scale
    requires u.ticksPerSecond > 0 && u.secondTh > 0
  {
    Scale(u.Multiplier(), u.MultiplierMax(), u.Compensation())
  }

  lemma MillisScale()
    ensures ScaleOf(Millis()) == Scale(1, 1, 1)
  {
  }

  lemma FastMillisScale(fast: bool)
    ensures ScaleOf(FastMillis(fast)) == if fast then Scale(160_000, 160_000, 1) else Scale(80_000, 160_000, 1)
  {
  }

  lemma FastMicrosScale(fast: bool)
    ensures ScaleOf(FastMicros(fast)) == if fast then Scale(160, 160, 1) else Scale(80, 160, 1)
  {
  }

  lemma FastNanosScale(fast: bool)
    ensures ScaleOf(FastNanos(fast)) == if fast then Scale(4, 4, 25) else Scale(2, 4, 25)
  {
    if fast {
      assert FastNanos(true).Compensation() == 25;
    } else {
      assert FastNanos(false).Compensation() == 25;
    }
  }

  /** The scales the class is used with. */
  lemma ScalesKnown(fast: bool)
    ensures Known(ScaleOf(Millis())) && Known(ScaleOf(FastMillis(fast)))
    ensures Known(ScaleOf(FastMicros(fast))) && Known(ScaleOf(FastNanos(fast)))
  {
    hide ScaleOf;
    MillisScale();
    FastMillisScale(fast);
    FastMicrosScale(fast);
    FastNanosScale(fast);
  }

  function TimeMax(s: Scale): nat
    requires Known(s)
  {
    0xffff_fffe / s.multiplierMax
  }

  /** The timeouts in range are those that cannot overflow at any processor frequency, with the
      largest number of ticks left for a timer that never expires. */
  lemma TimeMaxExact(s: Scale, user: nat)
    requires Known(s)
    ensures user <= TimeMax(s) <==> user * s.multiplierMax < 0xffff_ffff
  {
    var q, m := TimeMax(s), s.multiplierMax;
    assert q * m <= 0xffff_fffe < q * m + m;
    if user > q {
      MultiplesDiffer(q, user, m);
    } else {
      assert user * m <= q * m;
    }
  }

  /** toTimeTypeUnit and toUserUnit, in 32 bits. */
  function ToTicks(s: Scale, user: u32): u32
    requires Known(s)
  {
    user * s.multiplier % 0x1_0000_0000 / s.divider
  }

  function ToUser(s: Scale, ticks: u32): u32
    requires Known(s)
  {
    ticks * s.divider % 0x1_0000_0000 / s.multiplier
  }

  /** In range no conversion overflows; where a user unit is a whole number of ticks, converting
      back is exact. */
  lemma ConversionExact(s: Scale, user: u32)
    requires Known(s) && user <= TimeMax(s)
    ensures ToTicks(s, user) == user * s.multiplier / s.divider <= 0xffff_fffe
    ensures s.divider == 1 ==> ToUser(s, ToTicks(s, user)) == user
    ensures ToTicks(s, user) * s.divider < 0x1_0000_0000
    ensures user * s.multiplier - s.divider < ToTicks(s, user) * s.divider <= user * s.multiplier
  {
    hide ToTicks, ToUser;
    ProductInRange(user, s.multiplier, s.multiplierMax);
    TicksAre(s, user);
    if s.divider == 1 {
      UserIs(s, user);
    }
  }

  lemma ProductInRange(user: nat, multiplier: nat, multiplierMax: nat)
    requires 0 < multiplier <= multiplierMax && user <= 0xffff_fffe / multiplierMax
    ensures user * multiplier <= 0xffff_fffe
  {
    var q := 0xffff_fffe / multiplierMax;
    assert q * multiplierMax <= 0xffff_fffe;
    assert user * multiplier <= user * multiplierMax <= q * multiplierMax;
  }

  lemma TicksAre(s: Scale, user: u32)
    requires Known(s) && user * s.multiplier <= 0xffff_fffe
    ensures ToTicks(s, user) == user * s.multiplier / s.divider <= 0xffff_fffe
    ensures ToTicks(s, user) * s.divider < 0x1_0000_0000
    ensures user * s.multiplier - s.divider < ToTicks(s, user) * s.divider <= user * s.multiplier
  {
    var product := user * s.multiplier;
    assert s.divider == 1 || s.divider == 25;
  }

  lemma UserIs(s: Scale, user: u32)
    requires Known(s) && s.divider == 1 && user * s.multiplier <= 0xffff_fffe
    ensures ToUser(s, ToTicks(s, user)) == user
  {
    DivUnique(user * s.multiplier, s.multiplier, user, 0);
  }

  /** The other way, without overflow the rounding is downwards by less than a user unit. */
  lemma UserExact(s: Scale, ticks: u32)
    requires Known(s) && ticks * s.divider < 0x1_0000_0000
    ensures ToUser(s, ticks) * s.multiplier <= ticks * s.divider < ToUser(s, ticks) * s.multiplier + s.multiplier
  {
    var product, m := ticks * s.divider, s.multiplier;
    assert product == product / m * m + product % m;
  }

  // ----- the ideal timer -----

  /** The whole periods in a time. */
  function WholePeriods(time: nat, period: nat): int
    requires period > 0
  {
    time / period * period
  }

  /** The last period boundary at or before t, for a timer started at `start`. */
  function LastBoundary(start: nat, period: nat, t: nat): nat
    requires period > 0 && start <= t
  {
    start + WholePeriods(t - start, period)
  }

  lemma DivShift(k: nat, p: nat, r: nat)
    requires p > 0
    ensures (k * p + r) / p == k + r / p
  {
    assert r == r / p * p + r % p;
    assert k * p + r == (k + r / p) * p + r % p;
    DivUnique(k * p + r, p, k + r / p, r % p);
  }

  /** Counting on from a boundary gives the same boundaries as counting from the start. */
  lemma NoDrift(start: nat, period: nat, s: nat, t: nat)
    requires period > 0 && start <= s <= t && s == LastBoundary(start, period, s)
    ensures LastBoundary(s, period, t) == LastBoundary(start, period, t)
  {
    var k := (s - start) / period;
    assert t - start == k * period + (t - s);
    DivShift(k, period, t - s);
    assert (k + (t - s) / period) * period == k * period + (t - s) / period * period;
  }

  /** Where a periodic timer counts from after a run of polls, if each poll moves it to the last
      boundary passed. */
  function After(start: nat, period: nat, polls: seq<nat>): nat
    requires period > 0 && Ascending(start, polls)
    ensures start <= After(start, period, polls) <= if polls == [] then start else polls[|polls| - 1]
    decreases |polls|
  {
    if polls == [] then start
    else
      var n := |polls| - 1;
      var s := After(start, period, polls[..n]);
      BoundaryBounds(s, period, polls[n]);
      LastBoundary(s, period, polls[n])
  }

  predicate Ascending(start: nat, polls: seq<nat>) {
    forall i :: 0 <= i < |polls| ==> start <= polls[i] && forall j :: i <= j < |polls| ==> polls[i] <= polls[j]
  }

  lemma BoundaryBounds(start: nat, period: nat, t: nat)
    requires period > 0 && start <= t
    ensures start <= LastBoundary(start, period, t) <= t < LastBoundary(start, period, t) + period
    ensures t - start < period <==> LastBoundary(start, period, t) == start
    ensures LastBoundary(start, period, LastBoundary(start, period, t)) == LastBoundary(start, period, t)
  {
    hide WholePeriods;
    WholePeriodsBounds(t - start, period);
    WholePeriodsTwice(t - start, period);
  }

  lemma WholePeriodsBounds(time: nat, period: nat)
    requires period > 0
    ensures 0 <= WholePeriods(time, period) <= time < WholePeriods(time, period) + period
    ensures time < period <==> WholePeriods(time, period) == 0
  {
    var q, r := time / period, time % period;
    assert time == q * period + r;
    if time < period {
      DivUnique(time, period, 0, time);
    } else {
      QuotientPositive(time, period);
      MultiplesDiffer(0, q, period);
    }
  }

  lemma WholePeriodsTwice(time: nat, period: nat)
    requires period > 0
    ensures WholePeriods(time, period) >= 0
    ensures WholePeriods(WholePeriods(time, period), period) == WholePeriods(time, period)
  {
    var q := time / period;
    WholePeriodsBounds(time, period);
    DivUnique(q * period, period, q, 0);
  }

  lemma QuotientPositive(d: nat, p: nat)
    requires 0 < p <= d
    ensures d / p > 0
  {
    assert d == d / p * p + d % p;
  }

  /** No drift: after any run of polls the timer counts from start + k * period, the last such
      boundary before the last poll, however late the polls came. */
  lemma {:induction false} RunNoDrift(start: nat, period: nat, polls: seq<nat>)
    requires period > 0 && polls != [] && Ascending(start, polls)
    ensures After(start, period, polls) == LastBoundary(start, period, polls[|polls| - 1])
    decreases |polls|
  {
    var n := |polls| - 1;
    var s := After(start, period, polls[..n]);
    BoundaryBounds(start, period, start);
    if n > 0 {
      RunNoDrift(start, period, polls[..n]);
      BoundaryBounds(start, period, polls[n - 1]);
    }
    NoDrift(start, period, s, polls[n]);
  }

  /** Poll n of a run fires exactly when a period boundary has passed since the poll before it. */
  lemma FiresExact(start: nat, period: nat, polls: seq<nat>)
    requires period > 0 && polls != [] && Ascending(start, polls)
    ensures var n := |polls| - 1;
      var before := if n == 0 then start else LastBoundary(start, period, polls[n - 1]);
      polls[n] - After(start, period, polls[..n]) >= period <==> LastBoundary(start, period, polls[n]) > before
  {
    var n := |polls| - 1;
    var s := After(start, period, polls[..n]);
    if n > 0 {
      RunNoDrift(start, period, polls[..n]);
    }
    RunNoDrift(start, period, polls);
    BoundaryBounds(s, period, polls[n]);
  }

  // ----- the class -----

  lemma ModDiff(now: int, begun: int)
    ensures (now % 0x1_0000_0000 - begun % 0x1_0000_0000) % 0x1_0000_0000 == (now - begun) % 0x1_0000_0000
  {
    var m := 0x1_0000_0000;
    var k := now / m - begun / m;
    assert now - begun == k * m + (now % m - begun % m);
  }

  lemma ModSum(begun: int, step: int)
    ensures (begun % 0x1_0000_0000 + step) % 0x1_0000_0000 == (begun + step) % 0x1_0000_0000
  {
    var m := 0x1_0000_0000;
    assert begun + step == begun / m * m + (begun % m + step);
  }

  /** Timers measure time modulo 2^32 ticks. */
  function Elapsed(begun: int, now: int): u32 {
    (now - begun) % 0x1_0000_0000
  }

  /** What a periodic timer that does not expire never answers to a poll, and where it counts from
      afterwards. */
  predicate Due(start: u32, timeout: u32, now: int) {
    timeout == 0 || Elapsed(start, now) >= timeout
  }

  function Retriggered(start: u32, timeout: u32, now: int): u32 {
    if timeout == 0 || Elapsed(start, now) < timeout then start
    else (start + WholePeriods(Elapsed(start, now), timeout)) % 0x1_0000_0000
  }

  /** The subtraction of 32-bit counters. */
  lemma ElapsedIs(begun: int, start: u32, now: nat)
    requires start == begun % 0x1_0000_0000
    ensures Elapsed(begun, now) == Elapsed(start, now) == (now % 0x1_0000_0000 - start) % 0x1_0000_0000
  {
    ModDiff(now, begun);
    ModDiff(now, start);
  }

  lemma QuotientGrows(n: nat, m: nat, p: nat)
    requires p > 0 && n + p <= m
    ensures n / p * p + p <= m / p * p
  {
    DivShift(1, p, n);
    assert m == (m - n - p) + (n + p);
    QuotientMonotone(n + p, m, p);
    assert (n / p + 1) * p == n / p * p + p;
  }

  lemma QuotientMonotone(n: nat, m: nat, p: nat)
    requires p > 0 && n <= m
    ensures n / p * p <= m / p * p
  {
    if m / p < n / p {
      MultiplesDiffer(m / p, n / p, p);
    }
  }

  /** The modulus does not show exactly when a poll comes less than 2^32 ticks after the start:
      then the elapsed time is measured right, and a periodic timer moves to the last boundary. */
  lemma ElapsedExact(begun: nat, now: nat, timeout: u32)
    requires begun <= now
    ensures Elapsed(begun, now) == now - begun <==> now < begun + 0x1_0000_0000
    ensures timeout > 0 ==>
      (begun + WholePeriods(Elapsed(begun, now), timeout) == LastBoundary(begun, timeout, now) <==> now < begun + 0x1_0000_0000)
  {
    var d := now - begun;
    if d >= 0x1_0000_0000 && timeout > 0 {
      assert d == d / 0x1_0000_0000 * 0x1_0000_0000 + d % 0x1_0000_0000;
      QuotientPositive(d, 0x1_0000_0000);
      QuotientGrows(d % 0x1_0000_0000, d, timeout);
    }
  }

  /** Each poll of the run comes less than 2^32 ticks after the period boundary that the poll
      before it left behind, the first one after the start. */
  predicate Timely(start: nat, period: nat, polls: seq<nat>)
    requires period > 0 && Ascending(start, polls)
  {
    forall i :: 0 <= i < |polls| ==> polls[i] < BoundaryAt(start, period, polls, i) + 0x1_0000_0000
  }

  /** The boundary a timer should count from when poll i comes. */
  function BoundaryAt(start: nat, period: nat, polls: seq<nat>, i: nat): nat
    requires period > 0 && Ascending(start, polls) && i <= |polls|
  {
    if i == 0 then start else LastBoundary(start, period, polls[i - 1])
  }

  lemma AfterIs(start: nat, period: nat, polls: seq<nat>, i: nat)
    requires period > 0 && Ascending(start, polls) && i <= |polls|
    ensures After(start, period, polls[..i]) == BoundaryAt(start, period, polls, i)
  {
    if i > 0 {
      RunNoDrift(start, period, polls[..i]);
    }
  }

  /** Poll i moves the boundary on, and fires exactly when it does. */
  lemma NextBoundary(start: nat, period: nat, polls: seq<nat>, i: nat)
    requires period > 0 && Ascending(start, polls) && i < |polls|
    ensures var s, t := BoundaryAt(start, period, polls, i), BoundaryAt(start, period, polls, i + 1);
      && start <= s <= polls[i] && s <= t && t == LastBoundary(s, period, polls[i])
      && (polls[i] - s >= period <==> t > s)
  {
    var upTo := polls[..i + 1];
    assert upTo[..i] == polls[..i];
    AfterIs(start, period, polls, i);
    AfterIs(start, period, polls, i + 1);
    FiresExact(start, period, upTo);
    BoundaryBounds(BoundaryAt(start, period, polls, i), period, polls[i]);
  }

  class Timer {
    const scale: Scale
    var timeout: u32
    var start: u32
    var neverExpires: bool
    /** The start on a clock that does not wrap around. */
    ghost var begun: int

    ghost predicate Valid()
      reads this
    {
      Known(scale) && start == begun % 0x1_0000_0000
    }

    /** A timer that can expire and does not always. */
    predicate Running()
      reads this
    {
      timeout != 0 && !neverExpires
    }

    constructor (scale: Scale, userTimeout: u32, now: nat)
      requires Known(scale)
      ensures Valid() && this.scale == scale && begun == now
      ensures timeout == ToTicks(scale, userTimeout) && (neverExpires <==> userTimeout > TimeMax(scale))
    {
      this.scale := scale;
      timeout, neverExpires := ToTicks(scale, userTimeout), userTimeout > TimeMax(scale);
      start, begun := now % 0x1_0000_0000, now;
    }

    method Reset(userTimeout: u32, now: nat)
      requires Valid()
      modifies this
      ensures Valid() && begun == now
      ensures timeout == ToTicks(scale, userTimeout) && (neverExpires <==> userTimeout > TimeMax(scale))
      ensures neverExpires <==> userTimeout * scale.multiplierMax >= 0xffff_ffff
    {
      TimeMaxExact(scale, userTimeout);
      Restart(now);
      timeout := ToTicks(scale, userTimeout);
      neverExpires := userTimeout > TimeMax(scale);
    }

    /** reset without a new timeout. */
    method Restart(now: nat)
      requires Valid()
      modifies this
      ensures Valid() && begun == now && timeout == old(timeout) && neverExpires == old(neverExpires)
    {
      start, begun := now % 0x1_0000_0000, now;
    }

    /** resetAndSetExpired: the next poll finds the timer expired, unless it never expires. */
    method RestartExpired(now: nat)
      requires Valid()
      modifies this
      ensures Valid() && timeout == old(timeout) && neverExpires == old(neverExpires)
      ensures Elapsed(begun, now) == timeout
    {
      Restart(now);
      ModSum(begun, -(timeout as int));
      start := (start - timeout as int) % 0x1_0000_0000;
      begun := begun - timeout;
    }

    method NeverExpire()
      requires Valid()
      modifies this
      ensures Valid() && !Running() && timeout != 0
    {
      timeout := 1;
      neverExpires := true;
    }

    method GetTimeout() returns (user: u32)
      requires Valid()
      ensures user == ToUser(scale, timeout)
    {
      user := ToUser(scale, timeout);
    }

    method CheckExpired(internal: u32, ghost now: nat) returns (expired: bool)
      requires Valid() && internal == now % 0x1_0000_0000
      ensures expired <==> !neverExpires && Elapsed(begun, now) >= timeout
    {
      ModDiff(now, begun);
      var difference: int := internal - start as int;
      return !neverExpires && difference % 0x1_0000_0000 >= timeout;
    }

    /** expiredOneShot. */
    method ExpiredOneShot(now: nat) returns (expired: bool)
      requires Valid()
      ensures expired <==> timeout == 0 || (Running() && Elapsed(begun, now) >= timeout)
      ensures Running() && begun <= now < begun + 0x1_0000_0000 ==> (expired <==> now - begun >= timeout)
    {
      if timeout == 0 {
        return true;
      }
      expired := CheckExpired(now % 0x1_0000_0000, now);
    }

    /** A timer set beyond its range, and polled whenever after that: it never expires, as it is
        meant to, exactly when its timeout is not one of those that are always expired. */
    method PollBeyondRange(userTimeout: u32, now: nat, later: nat) returns (expired: bool)
      requires Valid() && userTimeout > TimeMax(scale)
      modifies this
      ensures Valid() && (expired <==> AlwaysExpired(scale, userTimeout))
    {
      Reset(userTimeout, now);
      expired := ExpiredOneShot(later);
    }

    /** expiredRetrigger: a timer that fires counts on from the last period boundary. */
    method ExpiredRetrigger(now: nat) returns (expired: bool)
      requires Valid()
      modifies this`start, this`begun
      ensures Valid() && (expired <==> timeout == 0 || (Running() && Elapsed(old(begun), now) >= timeout))
      ensures !expired || timeout == 0 ==> begun == old(begun)
      ensures expired && timeout > 0 ==> begun == old(begun) + WholePeriods(Elapsed(old(begun), now), timeout)
      ensures !neverExpires ==>
        (expired <==> Due(old(start), timeout, now)) && start == Retriggered(old(start), timeout, now)
    {
      hide Elapsed, WholePeriods;
      var current := now % 0x1_0000_0000;
      ElapsedIs(begun, start, now);
      if timeout == 0 {
        return true;
      }
      expired := CheckExpired(current, now);
      if expired {
        var difference: int := current - start as int;
        var step := WholePeriods(difference % 0x1_0000_0000, timeout);
        ModSum(begun, step);
        start := (start + step) % 0x1_0000_0000;
        begun := begun + step;
      }
    }

    /** Any number of polls. Timely ones fire exactly when a period boundary has passed since the
        poll before, and leave the timer counting from the last boundary start + k * timeout,
        however late they came. */
    method PollAll(polls: seq<nat>) returns (fired: seq<bool>)
      requires Valid() && Running() && begun >= 0 && Ascending(begun, polls) && Timely(begun, timeout, polls)
      modifies this`start, this`begun
      ensures Valid() && Running() && |fired| == |polls|
      ensures begun == After(old(begun), timeout, polls) == BoundaryAt(old(begun), timeout, polls, |polls|)
      ensures forall i :: 0 <= i < |polls| ==>
        (fired[i] <==> BoundaryAt(old(begun), timeout, polls, i + 1) > BoundaryAt(old(begun), timeout, polls, i))
    {
      hide LastBoundary, Elapsed, Timely;
      fired := [];
      ghost var origin: nat := begun;
      var i := 0;
      while i < |polls|
        invariant 0 <= i <= |polls| && Valid() && Running() && timeout == old(timeout)
        invariant begun == BoundaryAt(origin, timeout, polls, i) && |fired| == i
        invariant forall j :: 0 <= j < i ==>
          (fired[j] <==> BoundaryAt(origin, timeout, polls, j + 1) > BoundaryAt(origin, timeout, polls, j))
      {
        var now := PollNext(polls, i, origin);
        fired := fired + [now];
        i := i + 1;
      }
      AfterIs(origin, timeout, polls, |polls|);
      assert polls[..|polls|] == polls;
    }

    /** Poll i of a run. */
    method PollNext(polls: seq<nat>, i: nat, ghost origin: nat) returns (fired: bool)
      requires Valid() && Running() && Ascending(origin, polls) && Timely(origin, timeout, polls)
      requires i < |polls| && begun == BoundaryAt(origin, timeout, polls, i)
      modifies this`start, this`begun
      ensures Valid() && begun == BoundaryAt(origin, timeout, polls, i + 1)
      ensures fired <==> begun > old(begun)
    {
      hide LastBoundary, WholePeriods, Elapsed, BoundaryAt;
      NextBoundary(origin, timeout, polls, i);
      ElapsedExact(begun, polls[i], timeout);
      fired := ExpiredRetrigger(polls[i]);
    }
  }

  /** A timeout beyond the range is meant never to expire. The class makes it always expired
      instead when the conversion, which wraps around, gives zero ticks. */
  predicate AlwaysExpired(s: Scale, user: u32)
    requires Known(s)
  {
    user > TimeMax(s) && ToTicks(s, user) == 0
  }

  /** These are the timeouts beyond the range whose product wraps around to less than one tick;
      the unit of milliseconds has none, every fast unit has some. */
  lemma AlwaysExpiredExact(s: Scale)
    requires Known(s)
    ensures forall user: u32 :: AlwaysExpired(s, user) <==>
      user > TimeMax(s) && user * s.multiplier % 0x1_0000_0000 < s.divider
    ensures (exists user: u32 :: AlwaysExpired(s, user)) <==> s != Scale(1, 1, 1)
  {
    forall user: u32
      ensures AlwaysExpired(s, user) <==> user > TimeMax(s) && user * s.multiplier % 0x1_0000_0000 < s.divider
    {
      ZeroTicks(user * s.multiplier % 0x1_0000_0000, s.divider);
    }
    if s != Scale(1, 1, 1) {
      WrapsToZero(s);
    }
  }

  lemma ZeroTicks(product: nat, divider: nat)
    requires divider > 0
    ensures product / divider == 0 <==> product < divider
  {
    if product < divider {
      DivUnique(product, divider, 0, product);
    } else {
      QuotientPositive(product, divider);
    }
  }

  lemma WrapsToZero(s: Scale)
    requires Known(s) && s != Scale(1, 1, 1)
    ensures exists user: u32 :: AlwaysExpired(s, user)
  {
    if s.divider == 1 {
      var user := if s.multiplier == 80_000 then 0x200_0000 else if s.multiplier == 160_000 then 0x100_0000
                  else if s.multiplier == 80 then 0x1000_0000 else 0x800_0000;
      assert AlwaysExpired(s, user);
    } else {
      var user := if s.multiplier == 2 then 0x8000_0000 else 0x4000_0000;
      assert AlwaysExpired(s, user);
    }
  }
}
