// Recurrent scheduled functions: the list, one pass over it, and the cached grain of the
// periods.
module Recurrent {
  import opened Bytes
  import opened Lists
  import PT = PolledTimeout

  type Fn = nat

  /** The longest period in microseconds that a fast timer takes: (2^32 - 2) / 160. */
  const TIME_MAX := 26_843_545

  /** A function with its period in microseconds, the same as a timeout in ticks, the tick its
      timer counts from, and whether it comes with an alarm. */
  class Node {
    const mFunc: Fn
    const period: nat
    const timeout: u32
    const alarm: bool
    var start: u32
    var mNext: Node?

    constructor (fn: Fn, period: nat, timeout: u32, alarm: bool, now: nat)
      ensures mFunc == fn && this.period == period && this.timeout == timeout && this.alarm == alarm
      ensures start == now % 0x1_0000_0000 && mNext == null
    {
      mFunc, this.period, this.timeout, this.alarm := fn, period, timeout, alarm;
      start, mNext := now % 0x1_0000_0000, null;
    }

    /** Ask the alarm and the timer, both of them every time. */
    method Ask(now: nat, alarmUp: bool) returns (due: bool)
      modifies this`start
      ensures due <==> (alarm && alarmUp) || timeout == 0 || (now - old(start)) % 0x1_0000_0000 >= timeout
      ensures due == old(IsDue(now, alarmUp)) && start == PT.Retriggered(old(start), timeout, now)
    {
      var wakeup := alarm && alarmUp;
      var callNow := PT.Due(start, timeout, now);
      start := PT.Retriggered(start, timeout, now);
      return wakeup || callNow;
    }

    predicate IsDue(now: nat, alarmUp: bool)
      reads this`start
    {
      (alarm && alarmUp) || PT.Due(start, timeout, now)
    }
  }

  // ----- the grain -----

  function Gcd(a: nat, b: nat): nat
    decreases b
  {
    if b == 0 then a else Gcd(b, a % b)
  }

  ghost predicate Divides(d: nat, x: nat) {
    exists k: nat :: x == d * k
  }

  lemma DividesSum(d: nat, a: nat, b: nat, q: nat, r: nat)
    requires a == b * q + r && Divides(d, b)
    ensures Divides(d, a) <==> Divides(d, r)
  {
    var kb: nat :| b == d * kb;
    assert b * q == d * (kb * q);
    if Divides(d, a) {
      var ka: nat :| a == d * ka;
      DividesRest(d, ka, kb * q, r);
    }
    if Divides(d, r) {
      var kr: nat :| r == d * kr;
      Distributes(d, kb * q, kr);
    }
  }

  lemma Distributes(d: nat, m: nat, n: nat)
    ensures d * m + d * n == d * (m + n)
  {
  }

  lemma DividesRest(d: nat, m: nat, n: nat, r: nat)
    requires d * m == d * n + r
    ensures Divides(d, r)
  {
    if m >= n {
      Distributes(d, n, m - n);
      assert r == d * (m - n);
    } else {
      Distributes(d, m, n - m);
      assert r == d * 0;
    }
  }

  /** A number divides the gcd exactly when it divides both. */
  lemma {:induction false} GcdExact(a: nat, b: nat, d: nat)
    ensures Divides(d, Gcd(a, b)) <==> Divides(d, a) && Divides(d, b)
    decreases b
  {
    if b == 0 {
      assert 0 == d * 0;
    } else {
      GcdExact(b, a % b, d);
      if Divides(d, b) {
        DividesSum(d, a, b, a / b, a % b);
      }
    }
  }

  function GcdOf(ps: seq<nat>): nat
    decreases |ps|
  {
    if ps == [] then 0 else Gcd(GcdOf(ps[..|ps| - 1]), ps[|ps| - 1])
  }

  /** The numbers that divide it are the common divisors of all. */
  lemma {:induction false} GcdOfExact(ps: seq<nat>, d: nat)
    ensures Divides(d, GcdOf(ps)) <==> forall i :: 0 <= i < |ps| ==> Divides(d, ps[i])
    decreases |ps|
  {
    if ps == [] {
      assert 0 == d * 0;
    } else {
      var n := |ps| - 1;
      GcdOfExact(ps[..n], d);
      GcdExact(GcdOf(ps[..n]), ps[n], d);
      assert forall i :: 0 <= i < n ==> ps[..n][i] == ps[i];
    }
  }

  lemma {:induction false} GcdOfBound(ps: seq<nat>)
    requires forall i :: 0 <= i < |ps| ==> ps[i] <= TIME_MAX
    ensures GcdOf(ps) <= TIME_MAX
    decreases |ps|
  {
    if ps != [] {
      GcdOfBound(ps[..|ps| - 1]);
      GcdBound(GcdOf(ps[..|ps| - 1]), ps[|ps| - 1]);
    }
  }

  lemma {:induction false} GcdBound(a: nat, b: nat)
    ensures Gcd(a, b) <= a || Gcd(a, b) <= b
    decreases b
  {
    if b > 0 {
      GcdBound(b, a % b);
    }
  }

  /** Microseconds in milliseconds, rounded up. */
  function Millis(us: nat): nat {
    (us + 999) / 1000
  }

  lemma MillisRoundsUp(us: nat)
    ensures 1000 * Millis(us) - 1000 < us <= 1000 * Millis(us)
  {
  }

  // ----- the list -----

  ghost function NodeAt(nodes: seq<Node>, k: int): Node? {
    if 0 <= k < |nodes| then nodes[k] else null
  }

  ghost predicate Chained(nodes: seq<Node>)
    reads nodes
  {
    Distinct(nodes) && forall i :: 0 <= i < |nodes| ==> nodes[i].mNext == NodeAt(nodes, i + 1)
  }

  function Periods(nodes: seq<Node>): (ps: seq<nat>)
    ensures |ps| == |nodes|
  {
    seq(|nodes|, i requires 0 <= i < |nodes| => nodes[i].period)
  }

  ghost predicate Bounded(nodes: seq<Node>) {
    forall i :: 0 <= i < |nodes| ==> nodes[i].period <= TIME_MAX
  }

  lemma ChainedPush(nodes: seq<Node>, x: Node)
    requires Distinct(nodes) && x !in nodes && x.mNext == null
    requires forall i :: 0 <= i < |nodes| ==> nodes[i].mNext == if i == |nodes| - 1 then x else NodeAt(nodes, i + 1)
    ensures Chained(nodes + [x])
  {
    var all := nodes + [x];
    forall i | 0 <= i < |all| ensures all[i] == if i < |nodes| then nodes[i] else x {
    }
  }

  lemma KeptWithout(nodes: seq<Node>, k: nat, repr: set<Node>)
    requires k < |nodes|
    ensures |Without(nodes, k)| == |nodes| - 1
    ensures Bounded(nodes) ==> Bounded(Without(nodes, k))
    ensures (forall i :: 0 <= i < |nodes| ==> nodes[i] in repr) ==>
      forall i :: 0 <= i < |Without(nodes, k)| ==> Without(nodes, k)[i] in repr
  {
    WithoutIs(nodes, k);
  }

  lemma PlaceWithout(nodes: seq<Node>, k: nat, i: nat)
    requires k < |nodes|
    ensures NodeAt(Without(nodes, k), i) == NodeAt(nodes, if i < k then i else i + 1)
  {
  }

  lemma EndsWithout(nodes: seq<Node>, k: nat)
    requires k < |nodes|
    ensures NodeAt(Without(nodes, k), 0) == NodeAt(nodes, if k == 0 then 1 else 0)
    ensures NodeAt(Without(nodes, k), |nodes| - 2) == NodeAt(nodes, if k == |nodes| - 1 then k - 1 else |nodes| - 1)
  {
    WithoutIs(nodes, k);
  }

  lemma ChainedWithout(nodes: seq<Node>, k: nat)
    requires k < |nodes| && Distinct(nodes)
    requires forall i :: 0 <= i < |nodes| && i != k ==> nodes[i].mNext == NodeAt(nodes, if i == k - 1 then k + 1 else i + 1)
    ensures Chained(Without(nodes, k))
  {
    hide Without, Distinct, NodeAt;
    WithoutIs(nodes, k);
    var rest := Without(nodes, k);
    forall i | 0 <= i < |rest| ensures rest[i].mNext == NodeAt(rest, i + 1) {
      PlaceWithout(nodes, k, i + 1);
      var j := if i < k then i else i + 1;
      assert rest[i] == nodes[j] && nodes[j].mNext == NodeAt(nodes, if j == k - 1 then k + 1 else j + 1);
    }
  }

  /** What may happen while a pass is at one function: functions are added, from it or from an
      interrupt, and the grain may be asked for. */
  datatype Action = Add(fn: Fn, period: nat, alarm: bool, now: nat, outOfMemory: bool) | AskGrain

  /** What one round of a pass meets: the time, whether the function's alarm is up, what the
      function answers if it is called, and what happens meanwhile and while the loop yields
      behind it. */
  datatype Round = Round(now: nat, alarmUp: bool, again: bool, actions: seq<Action>, later: seq<Action>)

  /** One visit: the same once it is known whether the function is due. */
  datatype Visit = Visit(due: bool, again: bool, actions: seq<Action>, later: seq<Action>)

  function VisitOf(x: Node, r: Round): Visit
    reads x`start
  {
    Visit(x.IsDue(r.now, r.alarmUp), r.again, r.actions, r.later)
  }

  ghost function VisitsOf(nodes: seq<Node>, rounds: seq<Round>): (vs: seq<Visit>)
    requires |nodes| == |rounds|
    reads nodes
    ensures |vs| == |nodes| && forall i :: 0 <= i < |vs| ==> vs[i] == VisitOf(nodes[i], rounds[i])
  {
    seq(|nodes|, i requires 0 <= i < |nodes| reads nodes => VisitOf(nodes[i], rounds[i]))
  }

  predicate Stays(v: Visit) {
    !v.due || v.again
  }

  /** The nodes that survive their visits. */
  function Kept(nodes: seq<Node>, visits: seq<Visit>): seq<Node>
    requires |nodes| == |visits|
    decreases |nodes|
  {
    if nodes == [] then []
    else
      var n := |nodes| - 1;
      Kept(nodes[..n], visits[..n]) + if Stays(visits[n]) then [nodes[n]] else []
  }

  lemma VisitDue(x: Node, r: Round)
    ensures var v := VisitOf(x, r);
      && (v.due <==> (x.alarm && r.alarmUp) || x.timeout == 0 || (r.now - x.start) % 0x1_0000_0000 >= x.timeout)
      && v.again == r.again
  {
  }

  /** A node goes exactly when its function was due and answered false. */
  lemma {:induction false} KeptExact(nodes: seq<Node>, visits: seq<Visit>, i: nat)
    requires |nodes| == |visits| && i < |nodes| && Distinct(nodes)
    ensures nodes[i] !in Kept(nodes, visits) <==> visits[i].due && !visits[i].again
    decreases |nodes|
  {
    var n := |nodes| - 1;
    KeptFrom(nodes[..n], visits[..n]);
    if i < n {
      KeptExact(nodes[..n], visits[..n], i);
      assert nodes[i] == nodes[..n][i] != nodes[n];
    } else {
      assert nodes[n] !in nodes[..n];
    }
  }

  lemma {:induction false} KeptFrom(nodes: seq<Node>, visits: seq<Visit>)
    requires |nodes| == |visits|
    ensures forall x :: x in Kept(nodes, visits) ==> x in nodes
    decreases |nodes|
  {
    if nodes != [] {
      var n := |nodes| - 1;
      KeptFrom(nodes[..n], visits[..n]);
    }
  }

  class Recurrents {
    /** The unit of the timers: microseconds, at the processor's frequency. */
    const scale: PT.Scale
    var rFirst: Node?
    var rLast: Node?
    var maxGrain: nat
    var fence: bool
    ghost var nodes: seq<Node>
    /** All nodes ever allocated. */
    ghost var repr: set<Node>
    /** The functions ever accepted, and the ones visited by passes, in order. */
    ghost var taken: seq<Node>
    ghost var visited: seq<Node>

    ghost predicate Linked()
      reads this, nodes
    {
      && PT.Known(scale) && rFirst == NodeAt(nodes, 0) && rLast == NodeAt(nodes, |nodes| - 1) && Chained(nodes) && Bounded(nodes)
      && forall i :: 0 <= i < |nodes| ==> nodes[i] in repr
    }

    /** The cache is empty, or holds the gcd of all periods in milliseconds, rounded up. */
    ghost predicate GrainOk()
      reads this
    {
      maxGrain == 0 || (nodes != [] && maxGrain == Millis(GcdOf(Periods(nodes))))
    }

    ghost predicate Valid()
      reads this, nodes
    {
      Linked() && GrainOk()
    }

    constructor (fast: bool)
      ensures Valid() && nodes == taken == visited == [] && !fence
      ensures scale == PT.ScaleOf(PT.FastMicros(fast))
    {
      PT.ScalesKnown(fast);
      scale := PT.ScaleOf(PT.FastMicros(fast));
      rFirst, rLast, maxGrain, fence, nodes, repr, taken, visited := null, null, 0, false, [], {}, [], [];
    }

    /** schedule_recurrent_function_us. */
    method ScheduleRecurrent(fn: Option<Fn>, period: nat, alarm: bool, now: nat, outOfMemory: bool) returns (ok: bool)
      requires Valid() && period <= TIME_MAX
      modifies this`rFirst, this`rLast, this`maxGrain, this`nodes, this`repr, this`taken, repr`mNext
      ensures Valid() && (ok <==> fn.Some? && !outOfMemory)
      ensures forall x :: x in repr ==> x in old(repr) || fresh(x)
      ensures !ok ==> nodes == old(nodes) && taken == old(taken)
      ensures ok ==>
        && fresh(rLast) && rLast.mFunc == fn.value && rLast.period == period && rLast.alarm == alarm
        && rLast.timeout == PT.ToTicks(scale, period) && rLast.start == now % 0x1_0000_0000
        && nodes == old(nodes) + [rLast] && taken == old(taken) + [rLast]
    {
      if fn.None? || outOfMemory {
        return false;
      }
      var item := new Node(fn.value, period, PT.ToTicks(scale, period), alarm, now);
      Link(item);
      return true;
    }

    /** The part of schedule_recurrent_function_us under the interrupt lock. */
    method Link(item: Node)
      requires Valid() && item !in nodes && item !in repr && item.mNext == null && item.period <= TIME_MAX
      modifies this`rFirst, this`rLast, this`maxGrain, this`nodes, this`repr, this`taken, repr`mNext
      ensures Valid() && rLast == item && repr == old(repr) + {item}
      ensures nodes == old(nodes) + [item] && taken == old(taken) + [item]
    {
      hide Distinct;
      if rLast != null {
        rLast.mNext := item;
      } else {
        rFirst := item;
      }
      rLast := item;
      maxGrain := 0;
      ChainedPush(nodes, item);
      hide Chained;
      nodes, repr, taken := nodes + [item], repr + {item}, taken + [item];
    }

    /** compute_scheduled_recurrent_grain, undisturbed. */
    method ComputeGrain() returns (grain: nat)
      requires Valid()
      modifies this`maxGrain
      ensures Valid() && grain == maxGrain
      ensures grain == if nodes == [] then 0 else Millis(GcdOf(Periods(nodes)))
    {
      hide Gcd, GcdOf, Periods, Bounded, Distinct, Millis;
      PeriodsBound(nodes);
      if maxGrain == 0 {
        if rFirst != null {
          var us := rFirst.period;
          var it := rFirst.mNext;
          ghost var ps, k := Periods(nodes), 1;
          PeriodAt(nodes, 0);
          FirstGcd(ps);
          while it != null
            invariant 1 <= k <= |nodes| && it == NodeAt(nodes, k) && us == GcdOf(ps[..k]) && maxGrain == 0
            decreases |nodes| - k
          {
            PeriodAt(nodes, k);
            NextGcd(ps, k);
            us := Gcd(us, it.period);
            it := it.mNext;
            k := k + 1;
          }
          assert ps[..k] == ps;
          RoundedUp(us);
          if us != 0 {
            maxGrain := if us <= 1000 then 1 else (us + 999) % 0x1_0000_0000 / 1000;
          }
        }
      }
      return maxGrain;
    }

    /** What happens at one point of a pass. */
    method Act(actions: seq<Action>)
      requires Valid() && Sane(actions)
      modifies this`rFirst, this`rLast, this`maxGrain, this`nodes, this`repr, this`taken, repr`mNext
      ensures Valid() && Extended(old(nodes), nodes, old(taken), taken)
      ensures forall x :: x in repr ==> x in old(repr) || fresh(x)
    {
      ExtendedNot(nodes, taken);
      hide Valid, Extended;
      var k := 0;
      while k < |actions|
        invariant 0 <= k <= |actions| && Valid() && Extended(old(nodes), nodes, old(taken), taken)
        invariant forall x :: x in repr ==> x in old(repr) || fresh(x)
      {
        match actions[k] {
          case Add(fn, period, alarm, now, outOfMemory) =>
            ghost var mid, midTaken := nodes, taken;
            var ok := ScheduleRecurrent(Some(fn), period, alarm, now, outOfMemory);
            if ok {
              ExtendedMore(old(nodes), mid, old(taken), midTaken, rLast);
            }
          case AskGrain =>
            var grain := ComputeGrain();
        }
        k := k + 1;
      }
    }

    /** Take the current node out of the list. */
    method Ditch(prev: Node?, current: Node, ghost k: nat)
      requires Linked() && k < |nodes| && current == nodes[k] && prev == NodeAt(nodes, k - 1)
      modifies this`rFirst, this`rLast, this`maxGrain, this`nodes, repr`mNext
      ensures Valid() && nodes == Without(old(nodes), k)
    {
      hide Distinct, Chained, Bounded, NodeAt, Periods, GcdOf, Millis;
      Bypass(prev, current, k);
      Forget(k);
    }

    /** The bookkeeping of it: the grain must be computed again. */
    method Forget(ghost k: nat)
      requires PT.Known(scale) && k < |nodes| && Bounded(nodes) && (forall i :: 0 <= i < |nodes| ==> nodes[i] in repr)
      requires Chained(Without(nodes, k))
      requires rFirst == NodeAt(Without(nodes, k), 0) && rLast == NodeAt(Without(nodes, k), |nodes| - 2)
      modifies this`maxGrain, this`nodes
      ensures Valid() && nodes == Without(old(nodes), k)
    {
      KeptWithout(nodes, k, repr);
      hide Without, Chained, Bounded, NodeAt, Periods, GcdOf, Millis;
      maxGrain := 0;
      nodes := Without(nodes, k);
    }

    /** The pointer work of it. */
    method Bypass(prev: Node?, current: Node, ghost k: nat)
      requires Linked() && k < |nodes| && current == nodes[k] && prev == NodeAt(nodes, k - 1)
      modifies this`rFirst, this`rLast, repr`mNext
      ensures Chained(Without(nodes, k))
      ensures rFirst == NodeAt(Without(nodes, k), 0) && rLast == NodeAt(Without(nodes, k), |nodes| - 2)
    {
      hide Without, Bounded, Distinct;
      EndsWithout(nodes, k);
      if k > 0 {
        OthersDiffer(nodes, k - 1);
      }
      if rLast == current {
        rLast := prev;
      }
      if prev != null {
        prev.mNext := current.mNext;
      } else {
        rFirst := current.mNext;
      }
      ChainedWithout(nodes, k);
    }

    /** One round of a pass, at place k of the list. */
    method VisitOne(prev: Node?, current: Node, v: Visit, ghost k: nat) returns (prev': Node?, next: Node?)
      requires Valid() && k < |nodes| && current == nodes[k] && prev == NodeAt(nodes, k - 1)
      requires Sane(v.actions) && Sane(v.later)
      modifies this, repr`mNext
      ensures Valid() && fence == old(fence) && visited == old(visited) + [current]
      ensures Extended(if Stays(v) then old(nodes) else Without(old(nodes), k), nodes, old(taken), taken)
      ensures forall x :: x in repr ==> x in old(repr) || fresh(x)
      ensures prev' == if Stays(v) then current else prev
      ensures k + 1 < |old(nodes)| ==> next == old(nodes)[k + 1]
    {
      hide *;
      ghost var a, ta := nodes, taken;
      Act(v.actions);
      ghost var b, tb := nodes, taken;
      ExtendedKeeps(a, b, ta, tb, k);
      ExtendedPlaces(a, b, k);
      prev', next := Advance(prev, current, v, k);
      ghost var c := nodes;
      Act(v.later);
      ExtendedTwice(if Stays(v) then a else Without(a, k), c, nodes, ta, tb, taken);
    }

    /** Keep the current node or take it out, and step on. */
    method Advance(prev: Node?, current: Node, v: Visit, ghost k: nat) returns (prev': Node?, next: Node?)
      requires Valid() && k < |nodes| && current == nodes[k] && prev == NodeAt(nodes, k - 1)
      modifies this`rFirst, this`rLast, this`maxGrain, this`nodes, this`visited, repr`mNext
      ensures Valid() && visited == old(visited) + [current] && nodes == if Stays(v) then old(nodes) else Without(old(nodes), k)
      ensures prev' == (if Stays(v) then current else prev) && next == NodeAt(old(nodes), k + 1)
    {
      hide Without, Distinct;
      WithoutIs(nodes, k);
      visited := visited + [current];
      next := current.mNext;
      if v.due && !v.again {
        Ditch(prev, current, k);
        prev' := prev;
      } else {
        prev' := current;
      }
    }

    /** run_scheduled_recurrent_functions. A pass visits every function that was there at its
        start once and in order, asks its alarm and its timer, removes exactly those that were due
        and answered false, and keeps what was added meanwhile behind the rest. Inside a pass it
        does nothing. */
    method RunScheduledRecurrentFunctions(rounds: seq<Round>)
      requires Valid() && |rounds| == |nodes| && AllSane(rounds)
      modifies this, repr`mNext, nodes`start
      ensures Valid() && fence == old(fence)
      ensures old(fence) ==> nodes == old(nodes) && taken == old(taken) && visited == old(visited)
      ensures old(fence) ==> forall x :: x in nodes ==> x.start == old(x.start)
      ensures !old(fence) ==>
        && visited == old(visited) + old(nodes)
        && Extended(Kept(old(nodes), old(VisitsOf(nodes, rounds))), nodes, old(taken), taken)
        && forall i :: 0 <= i < |rounds| ==>
             old(nodes)[i].start == PT.Retriggered(old(nodes[i].start), old(nodes)[i].timeout, rounds[i].now)
      ensures forall x :: x in repr ==> x in old(repr) || fresh(x)
    {
      hide *;
      Ends();
      if rFirst == null {
        NoPass(nodes, VisitsOf(nodes, rounds), visited, taken);
        return;
      }
      if fence {
        return;
      }
      SetFence(true);
      Pass(rounds);
      SetFence(false);
    }

    /** The loop of a pass. */
    method Pass(rounds: seq<Round>)
      requires Valid() && nodes != [] && |rounds| == |nodes| && AllSane(rounds)
      modifies this, repr`mNext, nodes`start
      ensures Valid() && fence == old(fence) && visited == old(visited) + old(nodes)
      ensures Extended(Kept(old(nodes), old(VisitsOf(nodes, rounds))), nodes, old(taken), taken)
      ensures forall i :: 0 <= i < |rounds| ==>
        old(nodes)[i].start == PT.Retriggered(old(nodes[i].start), old(nodes)[i].timeout, rounds[i].now)
      ensures forall x :: x in repr ==> x in old(repr) || fresh(x)
    {
      hide *;
      Ends();
      var prev: Node?, current, stop := null, rFirst, rLast;
      ghost var start, k: nat := nodes, 0;
      ghost var visits := VisitsOf(nodes, rounds);
      PassStart(nodes, visits, visited, taken);
      var i: nat := 0;
      var more := true;
      while more
        invariant Valid() && fence == old(fence) && forall x :: x in repr ==> x in old(repr) || fresh(x)
        invariant 0 <= i <= |start| && Visited(start, i, old(visited), visited)
        invariant PassAt(start, visits, i, k, nodes, old(taken), taken) && prev == NodeAt(nodes, k - 1)
        invariant if more then i < |start| && current == start[i] else i == |start|
        invariant forall j :: i <= j < |start| ==> start[j].start == old(start[j].start)
        invariant forall j :: 0 <= j < i ==>
          start[j].start == PT.Retriggered(old(start[j].start), start[j].timeout, rounds[j].now)
        decreases |start| - i, more
      {
        var done := current == stop;
        LastIs(start, i);
        OneSane(rounds, i);
        var v := AskOne(current, rounds[i]);
        prev, current, k := Turn(prev, current, v, start, visits, i, k, old(taken), old(visited));
        i := i + 1;
        more := current != null && !done;
      }
      PassEnd(start, visits, i, k, nodes, old(taken), taken);
      VisitedAll(start, old(visited), visited);
    }

    /** Whether the current function is due. */
    method AskOne(current: Node, r: Round) returns (v: Visit)
      requires Valid()
      modifies current`start
      ensures Valid() && v == old(VisitOf(current, r)) && v.actions == r.actions && v.later == r.later
      ensures current.start == PT.Retriggered(old(current.start), current.timeout, r.now)
    {
      var due := current.Ask(r.now, r.alarmUp);
      v := Visit(due, r.again, r.actions, r.later);
    }

    /** One round, and what it means for the pass. */
    method Turn(prev: Node?, current: Node, v: Visit, ghost start: seq<Node>, ghost visits: seq<Visit>, ghost i: nat,
                ghost k: nat, ghost tb: seq<Node>, ghost vb: seq<Node>)
      returns (prev': Node?, next: Node?, ghost k': nat)
      requires Valid() && i < |start| && PassAt(start, visits, i, k, nodes, tb, taken) && v == visits[i]
      requires Visited(start, i, vb, visited) && current == start[i] && prev == NodeAt(nodes, k - 1)
      requires Sane(v.actions) && Sane(v.later)
      modifies this, repr`mNext
      ensures Valid() && fence == old(fence) && forall x :: x in repr ==> x in old(repr) || fresh(x)
      ensures PassAt(start, visits, i + 1, k', nodes, tb, taken) && Visited(start, i + 1, vb, visited)
      ensures prev' == NodeAt(nodes, k' - 1) && (i + 1 < |start| ==> next == start[i + 1])
    {
      hide *;
      PassHere(start, visits, i, k, nodes, tb, taken);
      ghost var mid, midTaken, midVisited := nodes, taken, visited;
      prev', next := VisitOne(prev, current, v, k);
      VisitedMore(start, i, vb, midVisited);
      PassStep(start, visits, i, k, mid, nodes, tb, midTaken, taken);
      k' := if Stays(v) then k + 1 else k;
    }

    method SetFence(closed: bool)
      requires Valid()
      modifies this`fence
      ensures Valid() && fence == closed
    {
      fence := closed;
    }

    lemma Ends()
      requires Valid()
      ensures Distinct(nodes) && NodeAt(nodes, -1) == null
      ensures nodes == [] <==> rFirst == null
      ensures nodes != [] ==> rFirst == nodes[0] && rLast == nodes[|nodes| - 1]
    {
    }
  }

  /** i functions of the start have been visited and k of them kept. */
  ghost predicate PassAt(start: seq<Node>, visits: seq<Visit>, i: nat, k: nat, nodes: seq<Node>,
                         takenBefore: seq<Node>, taken: seq<Node>) {
    && |start| == |visits| && i <= |start| && k == |Kept(start[..i], visits[..i])|
    && Extended(Kept(start[..i], visits[..i]) + start[i..], nodes, takenBefore, taken)
  }

  lemma PassStart(nodes: seq<Node>, visits: seq<Visit>, visited: seq<Node>, taken: seq<Node>)
    requires |nodes| == |visits|
    ensures PassAt(nodes, visits, 0, 0, nodes, taken, taken)
    ensures Visited(nodes, 0, visited, visited)
  {
    assert Kept(nodes[..0], visits[..0]) + nodes[0..] == nodes;
    ExtendedNot(nodes, taken);
  }

  lemma NoPass(nodes: seq<Node>, visits: seq<Visit>, visited: seq<Node>, taken: seq<Node>)
    requires |nodes| == |visits| == 0
    ensures Extended(Kept(nodes, visits), nodes, taken, taken) && visited == visited + nodes
  {
    ExtendedNot(nodes, taken);
  }

  ghost predicate Visited(start: seq<Node>, i: nat, before: seq<Node>, visited: seq<Node>)
    requires i <= |start|
  {
    visited == before + start[..i]
  }

  lemma VisitedMore(start: seq<Node>, i: nat, before: seq<Node>, visited: seq<Node>)
    requires i < |start| && Visited(start, i, before, visited)
    ensures Visited(start, i + 1, before, visited + [start[i]])
  {
    assert start[..i + 1] == start[..i] + [start[i]];
  }

  lemma VisitedAll(start: seq<Node>, before: seq<Node>, visited: seq<Node>)
    requires Visited(start, |start|, before, visited)
    ensures visited == before + start
  {
    assert start[..|start|] == start;
  }

  lemma LastIs(start: seq<Node>, i: nat)
    requires Distinct(start) && i < |start|
    ensures start[i] == start[|start| - 1] <==> i == |start| - 1
  {
  }

  lemma PassHere(start: seq<Node>, visits: seq<Visit>, i: nat, k: nat, nodes: seq<Node>, tb: seq<Node>, ta: seq<Node>)
    requires PassAt(start, visits, i, k, nodes, tb, ta) && i < |start|
    ensures k < |nodes| && nodes[k] == start[i] && (i + 1 < |start| ==> k + 1 < |nodes| && nodes[k + 1] == start[i + 1])
  {
  }

  lemma PassStep(start: seq<Node>, visits: seq<Visit>, i: nat, k: nat, mid: seq<Node>, nodes: seq<Node>,
                 tb: seq<Node>, tm: seq<Node>, ta: seq<Node>)
    requires PassAt(start, visits, i, k, mid, tb, tm) && i < |start| && k < |mid|
    requires Extended(if Stays(visits[i]) then mid else Without(mid, k), nodes, tm, ta)
    ensures PassAt(start, visits, i + 1, if Stays(visits[i]) then k + 1 else k, nodes, tb, ta)
    ensures NodeAt(nodes, k - 1) == NodeAt(mid, k - 1) && (Stays(visits[i]) ==> NodeAt(nodes, k) == mid[k])
  {
    var kept, rest := Kept(start[..i], visits[..i]), start[i..];
    KeptStep(start, visits, i);
    hide Kept, Extended, Without;
    if Stays(visits[i]) {
      ExtendedTwice(kept + rest, mid, nodes, tb, tm, ta);
    } else {
      ExtendedKeeps(kept + rest, mid, tb, tm, k);
      ExtendedTwice(Without(kept + rest, k), Without(mid, k), nodes, tb, tm, ta);
    }
    ExtendedFront(mid, nodes, tm, ta, k, Stays(visits[i]));
  }

  lemma KeptStep(start: seq<Node>, visits: seq<Visit>, i: nat)
    requires |start| == |visits| && i < |start|
    ensures start[..i + 1] == start[..i] + [start[i]]
    ensures var kept, next := Kept(start[..i], visits[..i]), Kept(start[..i + 1], visits[..i + 1]);
      && |kept + start[i..]| > |kept|
      && |next| == |kept| + (if Stays(visits[i]) then 1 else 0)
      && next + start[i + 1..] == if Stays(visits[i]) then kept + start[i..] else Without(kept + start[i..], |kept|)
  {
    var kept, rest := Kept(start[..i], visits[..i]), start[i..];
    hide Without;
    assert start[..i + 1][..i] == start[..i] && visits[..i + 1][..i] == visits[..i];
    assert rest == [start[i]] + start[i + 1..];
    if Stays(visits[i]) {
      assert (kept + [start[i]]) + start[i + 1..] == kept + rest;
    } else {
      WithoutMiddle(kept, start[i], start[i + 1..]);
    }
  }

  lemma ExtendedFront(mid: seq<Node>, nodes: seq<Node>, tm: seq<Node>, ta: seq<Node>, k: nat, stays: bool)
    requires k < |mid| && Extended(if stays then mid else Without(mid, k), nodes, tm, ta)
    ensures NodeAt(nodes, k - 1) == NodeAt(mid, k - 1) && (stays ==> NodeAt(nodes, k) == mid[k])
  {
  }

  lemma PassEnd(start: seq<Node>, visits: seq<Visit>, i: nat, k: nat, nodes: seq<Node>, tb: seq<Node>, ta: seq<Node>)
    requires PassAt(start, visits, i, k, nodes, tb, ta) && i == |start|
    ensures Extended(Kept(start, visits), nodes, tb, ta)
  {
    assert start[..i] == start && visits[..i] == visits && start[i..] == [];
    assert Kept(start, visits) + [] == Kept(start, visits);
  }

  predicate Sane(actions: seq<Action>) {
    forall k :: 0 <= k < |actions| && actions[k].Add? ==> actions[k].period <= TIME_MAX
  }

  predicate AllSane(rounds: seq<Round>) {
    forall i :: 0 <= i < |rounds| ==> Sane(rounds[i].actions) && Sane(rounds[i].later)
  }

  lemma OneSane(rounds: seq<Round>, i: nat)
    requires AllSane(rounds) && i < |rounds|
    ensures Sane(rounds[i].actions) && Sane(rounds[i].later)
  {
  }

  /** The list and the record of accepted functions have grown by the same nodes. */
  ghost predicate Extended(before: seq<Node>, after: seq<Node>, takenBefore: seq<Node>, takenAfter: seq<Node>) {
    takenBefore <= takenAfter && after == before + takenAfter[|takenBefore|..]
  }

  lemma ExtendedNot(nodes: seq<Node>, taken: seq<Node>)
    ensures Extended(nodes, nodes, taken, taken)
  {
  }

  lemma ExtendedMore(a: seq<Node>, b: seq<Node>, ta: seq<Node>, tb: seq<Node>, x: Node)
    requires Extended(a, b, ta, tb)
    ensures Extended(a, b + [x], ta, tb + [x])
  {
  }

  lemma RoundedUp(us: nat)
    requires us <= TIME_MAX
    ensures Millis(0) == 0
    ensures us > 0 ==> Millis(us) == if us <= 1000 then 1 else (us + 999) % 0x1_0000_0000 / 1000
  {
  }

  lemma PeriodAt(nodes: seq<Node>, k: nat)
    requires k < |nodes|
    ensures Periods(nodes)[k] == nodes[k].period
  {
  }

  lemma PeriodsBound(nodes: seq<Node>)
    requires Bounded(nodes)
    ensures GcdOf(Periods(nodes)) <= TIME_MAX
  {
    GcdOfBound(Periods(nodes));
  }

  lemma NextGcd(ps: seq<nat>, k: nat)
    requires k < |ps|
    ensures GcdOf(ps[..k + 1]) == Gcd(GcdOf(ps[..k]), ps[k])
  {
    assert ps[..k + 1][..k] == ps[..k];
  }

  lemma FirstGcd(ps: seq<nat>)
    requires ps != []
    ensures GcdOf(ps[..1]) == ps[0]
  {
    assert ps[..1][..0] == [];
    assert Gcd(0, ps[0]) == ps[0];
  }

  lemma ExtendedKeeps(a: seq<Node>, b: seq<Node>, ta: seq<Node>, tb: seq<Node>, k: nat)
    requires Extended(a, b, ta, tb) && k < |a|
    ensures |a| <= |b| && forall i :: 0 <= i < |a| ==> b[i] == a[i]
    ensures Extended(Without(a, k), Without(b, k), ta, tb)
  {
    assert Without(b, k) == Without(a, k) + tb[|ta|..];
  }

  lemma ExtendedPlaces(a: seq<Node>, b: seq<Node>, k: nat)
    requires k < |a| <= |b| && forall i :: 0 <= i < |a| ==> b[i] == a[i]
    ensures b[k] == a[k] && NodeAt(b, k - 1) == NodeAt(a, k - 1)
    ensures k + 1 < |a| ==> NodeAt(b, k + 1) == a[k + 1]
  {
  }

  lemma ExtendedTwice(a: seq<Node>, b: seq<Node>, c: seq<Node>, ta: seq<Node>, tb: seq<Node>, tc: seq<Node>)
    requires Extended(a, b, ta, tb) && Extended(b, c, tb, tc)
    ensures Extended(a, c, ta, tc)
  {
    assert tc[|ta|..] == tb[|ta|..] + tc[|tb|..];
  }
}
