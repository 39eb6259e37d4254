// Run-once scheduled functions: a queue and a free list of nodes, changed by the loop task, by
// the functions it calls and by interrupts.
module Schedule {
  import opened Bytes
  import opened Lists

  const SCHEDULED_FN_MAX_COUNT := 32

  /** What was put into a function object. */
  type Fn = nat

  class Node {
    var mNext: Node?
    var mFunc: Option<Fn>

    constructor ()
      ensures mNext == null && mFunc == None
    {
      mNext, mFunc := null, None;
    }
  }

  ghost function NodeAt(nodes: seq<Node>, k: int): Node? {
    if 0 <= k < |nodes| then nodes[k] else null
  }

  ghost predicate Chained(nodes: seq<Node>)
    reads nodes
  {
    forall i :: 0 <= i < |nodes| ==> nodes[i].mNext == NodeAt(nodes, i + 1)
  }

  /** No node occurs twice, in either list. */
  ghost predicate Apart(live: seq<Node>, free: seq<Node>) {
    && (forall i, j :: 0 <= i < j < |live| ==> live[i] != live[j])
    && (forall i, j :: 0 <= i < j < |free| ==> free[i] != free[j])
    && forall i, j :: 0 <= i < |live| && 0 <= j < |free| ==> live[i] != free[j]
  }

  ghost predicate Loaded(nodes: seq<Node>)
    reads nodes
  {
    forall i :: 0 <= i < |nodes| ==> nodes[i].mFunc.Some?
  }

  ghost function Functions(nodes: seq<Node>): (fs: seq<Fn>)
    requires Loaded(nodes)
    reads nodes
    ensures |fs| == |nodes| && forall i :: 0 <= i < |fs| ==> Some(fs[i]) == nodes[i].mFunc
  {
    seq(|nodes|, i requires 0 <= i < |nodes| && Loaded(nodes) reads nodes => nodes[i].mFunc.value)
  }

  ghost predicate InRepr(nodes: seq<Node>, repr: set<Node>) {
    forall i :: 0 <= i < |nodes| ==> nodes[i] in repr
  }

  /** The chain with one more node behind it. */
  lemma ChainedPush(nodes: seq<Node>, x: Node)
    requires x.mNext == null
    requires forall i :: 0 <= i < |nodes| ==> nodes[i].mNext == if i == |nodes| - 1 then x else NodeAt(nodes, i + 1)
    ensures Chained(nodes + [x])
  {
    var all := nodes + [x];
    forall i | 0 <= i < |all| ensures all[i] == if i < |nodes| then nodes[i] else x {
    }
  }

  lemma ChainedTail(nodes: seq<Node>)
    requires nodes != [] && Chained(nodes)
    ensures Chained(nodes[1..]) && nodes[0].mNext == NodeAt(nodes[1..], 0)
    ensures NodeAt(nodes[1..], |nodes| - 2) == if |nodes| == 1 then null else nodes[|nodes| - 1]
  {
    var rest := nodes[1..];
    forall i | 0 <= i < |rest| ensures rest[i] == nodes[i + 1] {
    }
  }

  lemma ChainedFront(nodes: seq<Node>, x: Node)
    requires Chained(nodes) && x.mNext == NodeAt(nodes, 0)
    ensures Chained([x] + nodes)
  {
    var all := [x] + nodes;
    forall i | 0 <= i < |all| ensures all[i] == if i == 0 then x else nodes[i - 1] {
    }
  }

  /** x is in neither list. */
  ghost predicate Outside(x: Node, live: seq<Node>, free: seq<Node>) {
    (forall i :: 0 <= i < |live| ==> live[i] != x) && forall i :: 0 <= i < |free| ==> free[i] != x
  }

  lemma LiveMoves(live: seq<Node>, free: seq<Node>)
    requires Apart(live, free) && live != []
    ensures Apart(live[1..], free) && Outside(live[0], live[1..], free)
  {
  }

  lemma FreeMoves(live: seq<Node>, free: seq<Node>)
    requires Apart(live, free) && free != []
    ensures Apart(live, free[1..]) && Outside(free[0], live, free[1..])
  {
  }

  lemma JoinsLive(live: seq<Node>, free: seq<Node>, x: Node)
    requires Apart(live, free) && Outside(x, live, free)
    ensures Apart(live + [x], free)
  {
  }

  lemma JoinsFree(live: seq<Node>, free: seq<Node>, x: Node)
    requires Apart(live, free) && Outside(x, live, free)
    ensures Apart(live, [x] + free)
  {
  }

  lemma FunctionsPush(nodes: seq<Node>, x: Node)
    requires Loaded(nodes) && x.mFunc.Some?
    ensures Loaded(nodes + [x]) && Functions(nodes + [x]) == Functions(nodes) + [x.mFunc.value]
  {
    var all := nodes + [x];
    forall i | 0 <= i < |all| ensures all[i] == if i < |nodes| then nodes[i] else x {
    }
  }

  lemma SkipThenMore(was: seq<Fn>, fn: Fn, skip: nat)
    requires skip <= |was|
    ensures (was + [fn])[skip..] == was[skip..] + [fn]
  {
  }

  lemma FunctionsTail(nodes: seq<Node>)
    requires Loaded(nodes) && nodes != []
    ensures Loaded(nodes[1..]) && Functions(nodes[1..]) == Functions(nodes)[1..]
  {
  }

  /** One call of schedule_function from an interrupt or a running function: the function
      object, perhaps empty, and whether memory is short. */
  datatype Attempt = Attempt(fn: Option<Fn>, outOfMemory: bool)

  /** n more functions were accepted. */
  ghost predicate Grown(before: seq<Fn>, after: seq<Fn>, n: nat) {
    before <= after && |after| == |before| + n
  }

  lemma GrownNone(a: seq<Fn>)
    ensures Grown(a, a, 0)
  {
  }

  lemma GrownMore(a: seq<Fn>, b: seq<Fn>, c: seq<Fn>, m: nat, n: nat)
    requires Grown(a, b, m) && Grown(b, c, n)
    ensures Grown(a, c, m + n)
  {
  }

  /** How far a pass is: q was queued at its start, `stop` is its last node, k functions have
      been called. */
  ghost predicate Progress(q: seq<Node>, stop: Node?, live: seq<Node>, done: bool, k: nat, slipped: nat) {
    if q == [] then
      stop == null && !done && (k == 0 ==> |live| == slipped) && (slipped == 0 ==> k == 0)
    else if done then k == |q|
    else k < |q| && stop == q[|q| - 1] && q[k..] <= live
  }

  lemma ProgressStart(q: seq<Node>, stop: Node?, live: seq<Node>, slipped: nat)
    requires stop == (if q == [] then null else q[|q| - 1]) && q <= live && |live| == |q| + slipped
    ensures Progress(q, stop, live, false, 0, slipped)
  {
  }

  lemma ProgressStep(q: seq<Node>, stop: Node?, was: seq<Node>, live: seq<Node>, k: nat, slipped: nat)
    requires Distinct(q) && Progress(q, stop, was, false, k, slipped) && was != [] && was[1..] <= live
    ensures Progress(q, stop, live, was[0] == stop, k + 1, slipped)
  {
    if q != [] {
      assert q[k..][0] == was[0] && q[k..][1..] == q[k + 1..];
      assert q[k..][1..] <= was[1..];
    }
  }

  lemma ProgressEnd(q: seq<Node>, stop: Node?, live: seq<Node>, done: bool, k: nat, slipped: nat)
    requires Progress(q, stop, live, done, k, slipped) && (live == [] || done)
    ensures if q == [] then live == [] && (k == 0 <==> slipped == 0) else k == |q|
  {
  }

  /** What is scheduled while one function of a pass runs, and right after its removal. */
  datatype Round = Round(during: seq<Attempt>, after: seq<Attempt>)

  class Scheduler {
    var sFirst: Node?
    var sLast: Node?
    var sUnused: Node?
    var sCount: nat

    ghost var live: seq<Node>
    ghost var free: seq<Node>
    /** All nodes ever allocated. */
    ghost var repr: set<Node>
    /** Every function accepted so far, and every function called so far, in order. */
    ghost var accepted: seq<Fn>
    ghost var ran: seq<Fn>

    /** The two lists; `held` counts nodes taken out of them for the moment. */
    ghost predicate Linked(held: nat)
      reads this, live, free
    {
      && sFirst == NodeAt(live, 0) && sLast == NodeAt(live, |live| - 1) && sUnused == NodeAt(free, 0)
      && Chained(live) && Chained(free) && Apart(live, free) && Loaded(live)
      && |live| + |free| + held == sCount <= SCHEDULED_FN_MAX_COUNT
      && InRepr(live, repr) && InRepr(free, repr)
    }

    /** `running`: the function of the first node has been called and its node not yet taken
        out of the queue. */
    ghost predicate Valid(running: bool)
      reads this, live, free
    {
      Linked(0) && (running ==> live != []) &&
      accepted == ran + Functions(live)[if running then 1 else 0..]
    }

    constructor ()
      ensures Valid(false) && live == [] && accepted == ran == [] && repr == {}
    {
      sFirst, sLast, sUnused, sCount, live, free, accepted, ran := null, null, null, 0, [], [], [], [];
      repr := {};
    }

    /** get_fn_unsafe: an unused node, a new one, or none. */
    method GetFn(outOfMemory: bool) returns (result: Node?)
      requires Linked(0)
      modifies this`sUnused, this`sCount, this`free, this`repr
      ensures (forall x :: x in repr ==> x in old(repr) || fresh(x)) && old(repr) <= repr
      ensures result == null <==> old(free) == [] && (old(sCount) == SCHEDULED_FN_MAX_COUNT || outOfMemory)
      ensures result == null ==> unchanged(this)
      ensures result != null ==> Linked(1) && Outside(result, live, free) && result in repr
    {
      hide Chained, Apart;
      result := sUnused;
      if sUnused != null {
        ChainedTail(free);
        FreeMoves(live, free);
        sUnused := sUnused.mNext;
        free := free[1..];
      } else if sCount < SCHEDULED_FN_MAX_COUNT && !outOfMemory {
        result := new Node();
        sCount := sCount + 1;
        repr := repr + {result};
        assert forall i :: 0 <= i < |live| ==> live[i] != result;
      }
    }

    /** schedule_function: accepted exactly while fewer than 32 functions wait, unless memory is
        short and no node can be reused. */
    method ScheduleFunction(fn: Option<Fn>, outOfMemory: bool, ghost running: bool) returns (ok: bool)
      requires Valid(running)
      modifies this`sFirst, this`sLast, this`sUnused, this`sCount, this`live, this`free, this`accepted, this`repr, repr
      ensures Valid(running)
      ensures ok <==> fn.Some? && old(|live|) < SCHEDULED_FN_MAX_COUNT && (old(free) != [] || !outOfMemory)
      ensures if ok then accepted == old(accepted) + [fn.value] && |live| == |old(live)| + 1 && old(live) <= live
              else unchanged(this)
      ensures (forall x :: x in repr ==> x in old(repr) || fresh(x))
    {
      if fn.None? {
        return false;
      }
      var item := GetFn(outOfMemory);
      if item == null {
        return false;
      }
      Append(item, fn.value, running);
      return true;
    }

    /** The part of schedule_function that fills a node and puts it behind the queue. */
    method Append(item: Node, fn: Fn, ghost running: bool)
      requires Linked(1) && Outside(item, live, free) && item in repr && (running ==> live != [])
      requires accepted == ran + Functions(live)[if running then 1 else 0..]
      modifies this`sFirst, this`sLast, this`live, this`accepted, repr
      ensures Valid(running) && accepted == old(accepted) + [fn] && live == old(live) + [item]
      ensures Functions(live) == old(Functions(live)) + [fn]
    {
      hide Apart, Outside, Chained, Functions, Loaded;
      ghost var skip := if running then 1 else 0;
      ghost var was := Functions(live);
      LinkBehind(item, fn);
      JoinsLive(live, free, item);
      FunctionsPush(live, item);
      SkipThenMore(was, fn, skip);
      live := live + [item];
      accepted := accepted + [fn];
    }

    /** The pointer work of it. */
    method LinkBehind(item: Node, fn: Fn)
      requires Linked(1) && Outside(item, live, free) && item in repr
      modifies this`sFirst, this`sLast, repr
      ensures Chained(live + [item]) && Chained(free) && sFirst == NodeAt(live + [item], 0) && sLast == item
      ensures item.mFunc == Some(fn) && Loaded(live) && Functions(live) == old(Functions(live))
    {
      hide Functions;
      ghost var was := Functions(live);
      item.mFunc := Some(fn);
      item.mNext := null;
      if sFirst != null {
        sLast.mNext := item;
      } else {
        sFirst := item;
      }
      sLast := item;
      ChainedPush(live, item);
      assert Functions(live) == was;
    }

    /** The removal after a call: the first node goes to the free list. */
    method RecycleFirst()
      requires Valid(true)
      modifies this`sFirst, this`sLast, this`sUnused, this`live, this`free, repr
      ensures old(live) != [] && Valid(false) && live == old(live)[1..]
      ensures accepted == old(accepted) && ran == old(ran)
    {
      hide Apart, Chained, Functions;
      var toRecycle := sFirst;
      FunctionsTail(live);
      ChainedTail(live);
      LiveMoves(live, free);
      if sLast == sFirst {
        sLast := null;
      }
      sFirst := sFirst.mNext;
      live := live[1..];
      PutFree(toRecycle);
    }

    /** recycle_fn_unsafe. */
    method PutFree(fn: Node)
      requires Linked(1) && Outside(fn, live, free) && fn in repr
      modifies this`sUnused, this`free, fn
      ensures Linked(0) && free == [fn] + old(free) && Functions(live) == old(Functions(live))
    {
      hide Apart;
      ghost var was := Functions(live);
      fn.mFunc := None;
      fn.mNext := sUnused;
      sUnused := fn;
      ChainedFront(free, fn);
      JoinsFree(live, free, fn);
      free := [fn] + free;
      assert Functions(live) == was;
    }

    /** Whatever interrupts and the running function schedule at one point of a pass. */
    method Interfere(attempts: seq<Attempt>, ghost running: bool) returns (n: nat)
      requires Valid(running)
      modifies this`sFirst, this`sLast, this`sUnused, this`sCount, this`live, this`free, this`accepted, this`repr, repr
      ensures Valid(running) && ran == old(ran) && Grown(old(accepted), accepted, n)
      ensures |live| == |old(live)| + n && old(live) <= live
      ensures (forall x :: x in repr ==> x in old(repr) || fresh(x))
      ensures attempts == [] ==> n == 0
    {
      hide Linked, Functions;
      n := 0;
      var i := 0;
      while i < |attempts|
        invariant 0 <= i <= |attempts| && Valid(running) && ran == old(ran) && n <= i
        invariant Grown(old(accepted), accepted, n)
        invariant |live| == |old(live)| + n && old(live) <= live
        invariant (forall x :: x in repr ==> x in old(repr) || fresh(x))
      {
        ghost var mid := accepted;
        var ok := ScheduleFunction(attempts[i].fn, attempts[i].outOfMemory, running);
        if ok {
          GrownMore(old(accepted), mid, accepted, n, 1);
          n := n + 1;
        }
        i := i + 1;
      }
    }

    /** One function of the queue: call it, and take its node out. */
    method RunFirst(during: seq<Attempt>) returns (n: nat)
      requires Valid(false) && live != []
      modifies this, repr
      ensures Valid(false) && ran == old(ran) + [old(Functions(live))[0]]
      ensures |live| == |old(live)| - 1 + n && old(live)[1..] <= live
      ensures Grown(old(accepted), accepted, n)
      ensures (forall x :: x in repr ==> x in old(repr) || fresh(x)) && (during == [] ==> n == 0)
    {
      ghost var was := live;
      LoadedQueue();
      hide *;
      Call();
      n := Interfere(during, true);
      TailOfPrefix(was, live);
      RecycleFirst();
    }

    /** One round of the loop. */
    method Turn(now: Round) returns (n: nat)
      requires Valid(false) && live != []
      modifies this, repr
      ensures Valid(false) && |ran| == |old(ran)| + 1
      ensures |live| == |old(live)| - 1 + n && old(live)[1..] <= live
      ensures Grown(old(accepted), accepted, n)
      ensures (forall x :: x in repr ==> x in old(repr) || fresh(x)) && (now == Round([], []) ==> n == 0)
    {
      LoadedQueue();
      hide *;
      n := RunFirst(now.during);
      ghost var mid := accepted;
      var more := Interfere(now.after, false);
      GrownMore(old(accepted), mid, accepted, n, more);
      n := n + more;
    }

    /** The loop of run_scheduled_functions, with the end mark read before. */
    method RunUntil(stop: Node?, rounds: seq<Round>, ghost q: seq<Node>, ghost slipped: nat)
      returns (ghost calls: nat, ghost more: nat)
      requires Valid(false) && Distinct(q) && Progress(q, stop, live, false, 0, slipped)
      modifies this, repr
      ensures Valid(false) && (forall x :: x in repr ==> x in old(repr) || fresh(x))
      ensures Grown(old(accepted), accepted, more) && |ran| == |old(ran)| + calls
      ensures if q == [] then live == [] && (calls == 0 <==> slipped == 0) else calls == |q|
    {
      hide *;
      calls, more := 0, 0;
      GrownNone(accepted);
      var done, k := false, 0;
      while sFirst != null && !done
        invariant Valid(false) && (forall x :: x in repr ==> x in old(repr) || fresh(x))
        invariant Grown(old(accepted), accepted, more) && |ran| == |old(ran)| + k
        invariant Progress(q, stop, live, done, k, slipped)
        decreases if k < |rounds| then |rounds| - k else 0, |live|
      {
        QueueFacts();
        ghost var was, mid := live, accepted;
        done := sFirst == stop;
        var n := Turn(if k < |rounds| then rounds[k] else Round([], []));
        ProgressStep(q, stop, was, live, k, slipped);
        GrownMore(old(accepted), mid, accepted, more, n);
        more := more + n;
        k := k + 1;
      }
      QueueFacts();
      ProgressEnd(q, stop, live, done, k, slipped);
      calls := k;
    }

    /** run_scheduled_functions: one pass. `early` is scheduled between the reading of the end
        mark and the loop; `rounds` says what is scheduled around each call, and nothing is
        after it ends. A pass runs what had been accepted before it began, and no more exactly
        when the queue was not empty or nothing slipped in early. */
    method RunScheduledFunctions(early: seq<Attempt>, rounds: seq<Round>) returns (ghost slipped: nat)
      requires Valid(false)
      modifies this, repr
      ensures Valid(false) && (forall x :: x in repr ==> x in old(repr) || fresh(x))
      ensures old(accepted) <= ran <= accepted
      ensures ran == old(accepted) <==> old(live) != [] || slipped == 0
      ensures slipped <= |accepted| - |old(accepted)| && (old(live) == [] ==> live == [])
    {
      ghost var q := live;
      QueueFacts();
      hide *;
      var stop := sLast;
      slipped := Interfere(early, false);
      QueueFacts();
      ProgressStart(q, stop, live, slipped);
      ghost var mid, calls, more := accepted, 0, 0;
      calls, more := RunUntil(stop, rounds, q, slipped);
      QueueFacts();
      GrownMore(old(accepted), mid, accepted, slipped, more);
      PrefixesMeet(old(accepted), ran, accepted, slipped + more);
    }

    lemma QueueFacts()
      requires Valid(false)
      ensures sFirst == (if live == [] then null else live[0]) && sLast == if live == [] then null else live[|live| - 1]
      ensures Distinct(live)
      ensures ran <= accepted && |accepted| == |ran| + |live|
    {
    }

    lemma LoadedQueue()
      requires Valid(false)
      ensures Loaded(live)
    {
    }

    /** The call itself. */
    method Call()
      requires Valid(false) && live != []
      modifies this`ran
      ensures Valid(true) && ran == old(ran) + [Functions(live)[0]]
    {
      FirstMoves(accepted, ran, Functions(live));
      ran := ran + [sFirst.mFunc.value];
    }
  }

  lemma FirstMoves(accepted: seq<Fn>, ran: seq<Fn>, queue: seq<Fn>)
    requires accepted == ran + queue[0..] && queue != []
    ensures accepted == (ran + [queue[0]]) + queue[1..]
  {
  }

  lemma TailOfPrefix(was: seq<Node>, now: seq<Node>)
    requires was != [] && was <= now
    ensures was[1..] <= now[1..] && |now[1..]| == |now| - 1
  {
  }

  lemma PrefixesMeet(a: seq<Fn>, b: seq<Fn>, c: seq<Fn>, n: nat)
    requires Grown(a, c, n) && b <= c
    ensures |a| <= |b| ==> a <= b
    ensures |a| == |b| ==> a == b
  {
  }
}
