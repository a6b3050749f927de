/** The per-CPU timer: SetTimer (Kernel/Source/CPU/PerCpu.c) and the timer interrupt
    (Kernel/Source/Intmgmt/Timer.c). */
module TimerInterrupt {
  import opened TimerQueue

  const WORD: nat := 0x1_0000_0000_0000_0000

  class TimerEvent {
    var next: TimerEvent?
    var count: nat
    const action: Action
    ghost const id: nat

    constructor (ticks: nat, action: Action, ghost id: nat)
      ensures count == ticks && this.action == action && this.id == id
    {
      next, count, this.action, this.id := null, ticks, action, id;
    }
  }

  /** A root pointer and the list behind it. */
  class Queue {
    var root: TimerEvent?
    ghost var nodes: seq<TimerEvent>
    ghost var repr: set<TimerEvent>
    ghost var timers: seq<Timer>

    ghost function At(i: nat): TimerEvent?
      reads this
    {
      if i < |nodes| then nodes[i] else null
    }

    ghost predicate Linked()
      reads this, repr
    {
      && root == At(0) && (forall i {:trigger nodes[i]} | 0 <= i < |nodes| :: nodes[i] in repr)
      && (forall i {:trigger nodes[i].next} | 0 <= i < |nodes| :: nodes[i].next == At(i + 1))
      && NoRepeat(nodes)
    }

    /** The list shows `timers`, in order. */
    ghost predicate Valid()
      reads this, repr
    {
      && Linked() && |nodes| == |timers| && Sorted(timers)
      && forall i {:trigger nodes[i]} {:trigger timers[i]} | 0 <= i < |nodes| ::
          timers[i] == Timer(nodes[i].id, nodes[i].count, nodes[i].action)
    }

    constructor ()
      ensures Valid() && timers == [] && nodes == [] && repr == {}
    {
      root, nodes, repr, timers := null, [], {}, [];
    }

    /** FindTimerEventInsertPoint: the node to insert after, null for the root. */
    method FindInsertPoint(ticks: nat) returns (prev: TimerEvent?, ghost k: nat)
      requires Valid()
      ensures k == Point(timers, ticks) && prev == if k == 0 then null else At(k - 1)
    {
      prev, k := null, 0;
      var event := root;
      while event != null
        invariant k <= |nodes| && event == At(k) && prev == if k == 0 then null else At(k - 1)
        invariant forall i {:trigger timers[i]} | 0 <= i < k :: timers[i].left < ticks
        decreases |nodes| - k
      {
        if ticks <= event.count {
          PointUnique(timers, ticks, k);
          return;
        }
        prev := event;
        event := event.next;
        k := k + 1;
      }
      PointUnique(timers, ticks, k);
    }

    /** Splices a node in after `prev`. */
    method Splice(event: TimerEvent, prev: TimerEvent?, ghost k: nat)
      requires Linked() && event !in repr && k <= |nodes| && prev == if k == 0 then null else At(k - 1)
      modifies this`root, this`nodes, this`repr, repr`next, event`next
      ensures Linked() && nodes == Put(old(nodes), k, event) && repr == old(repr) + {event}
    {
      PutKeeps(nodes, k, event);
      if prev != null {
        SpliceAfter(event, prev, k);
      } else {
        event.next := root;
        root := event;
        nodes, repr := Put(nodes, k, event), repr + {event};
      }
    }

    method SpliceAfter(event: TimerEvent, prev: TimerEvent, ghost k: nat)
      requires Linked() && event !in repr && 0 < k <= |nodes| && prev == nodes[k - 1] && NoRepeat(Put(nodes, k, event))
      modifies this`nodes, this`repr, prev`next, event`next
      ensures Linked() && nodes == Put(old(nodes), k, event) && repr == old(repr) + {event}
    {
      OthersDiffer(nodes, k - 1);
      event.next := prev.next;
      prev.next := event;
      Relinked(nodes, k, event);
      PutMembers(nodes, k, event, repr);
      nodes, repr := Put(nodes, k, event), repr + {event};
    }

    /** The new event takes its place in the queue. */
    method Insert(event: TimerEvent)
      requires Valid() && event !in repr
      modifies this, repr`next, event`next
      ensures Valid() && timers == Inserted(old(timers), Timer(event.id, event.count, event.action))
      ensures repr == old(repr) + {event}
    {
      var prev, k := FindInsertPoint(event.count);
      InsertAt(event, prev, k);
    }

    /** The new event goes to place `k`, which is the right one. */
    method InsertAt(event: TimerEvent, prev: TimerEvent?, ghost k: nat)
      requires Valid() && event !in repr
      requires k == Point(timers, event.count) && prev == if k == 0 then null else At(k - 1)
      modifies this, repr`next, event`next
      ensures Valid() && timers == Inserted(old(timers), Timer(event.id, event.count, event.action))
      ensures repr == old(repr) + {event}
    {
      ghost var t, ts, ns := Timer(event.id, event.count, event.action), timers, nodes;
      PutShown(ns, ts, k, event);
      Splice(event, prev, k);
      InsertedSorted(ts, t);
      timers := Inserted(ts, t);
    }

    /** The root event leaves the list. */
    method RemoveRoot()
      requires Valid() && root != null
      modifies this
      ensures Valid() && nodes == old(nodes[1..]) && timers == old(timers[1..]) && repr == old(repr)
    {
      TailNoRepeat(nodes);
      TailSorted(timers);
      root := root.next;
      nodes, timers := nodes[1..], timers[1..];
    }

    /** The root pointer is set to null. */
    method Clear()
      modifies this
      ensures Valid() && timers == [] && nodes == [] && repr == old(repr)
    {
      root, nodes, timers := null, [], [];
    }

    /** Takes `ticks` off every count. */
    method DebitAll(ticks: nat)
      requires Valid() && forall i {:trigger timers[i]} | 0 <= i < |timers| :: ticks <= timers[i].left
      modifies this`timers, repr`count
      ensures Valid() && timers == Debited(old(timers), ticks)
    {
      DebitNodes(ticks);
      DebitedSorted(timers, ticks);
      timers := Debited(timers, ticks);
    }

    /** The first `k` counts are debited. */
    ghost predicate Halfway(k: nat, ticks: nat)
      reads this, repr
    {
      && Linked() && |nodes| == |timers|
      && forall i {:trigger nodes[i]} | 0 <= i < |nodes| ::
          nodes[i].count == timers[i].left - if i < k then ticks else 0
    }

    method DebitNodes(ticks: nat)
      requires Halfway(0, ticks) && forall i {:trigger timers[i]} | 0 <= i < |timers| :: ticks <= timers[i].left
      modifies repr`count
      ensures Halfway(|nodes|, ticks)
    {
      var event, k := root, 0;
      while event != null
        invariant k <= |nodes| && event == At(k) && Halfway(k, ticks)
        decreases |nodes| - k
      {
        event := DebitNode(k, event, ticks);
        k := k + 1;
      }
    }

    method DebitNode(ghost k: nat, event: TimerEvent, ticks: nat) returns (next: TimerEvent?)
      requires k < |nodes| && event == nodes[k] && ticks <= event.count && Halfway(k, ticks)
      modifies event`count
      ensures Halfway(k + 1, ticks) && next == At(k + 1)
    {
      OthersDiffer(nodes, k);
      event.count := event.count - ticks;
      next := event.next;
    }
  }

  ghost function After(nodes: seq<TimerEvent>, i: nat): TimerEvent? {
    if i + 1 < |nodes| then nodes[i + 1] else null
  }

  /** The pointers of a list with a node spliced in. */
  lemma Relinked(nodes: seq<TimerEvent>, k: nat, event: TimerEvent)
    requires 0 < k <= |nodes| && nodes[k - 1].next == event && event.next == After(nodes, k - 1)
    requires forall i {:trigger nodes[i]} | 0 <= i < |nodes| && i != k - 1 :: nodes[i].next == After(nodes, i)
    ensures var ns := Put(nodes, k, event); forall i {:trigger ns[i]} | 0 <= i < |ns| :: ns[i].next == After(ns, i)
  {
    var ns := Put(nodes, k, event);
    forall i | 0 <= i < |ns| ensures ns[i].next == After(ns, i) {
      PutIndex(nodes, k, event, i);
      if i < |nodes| { PutIndex(nodes, k, event, i + 1); }
    }
  }

  lemma PutMembers(nodes: seq<TimerEvent>, k: nat, event: TimerEvent, repr: set<TimerEvent>)
    requires k <= |nodes| && forall i {:trigger nodes[i]} | 0 <= i < |nodes| :: nodes[i] in repr
    ensures var ns := Put(nodes, k, event); forall i {:trigger ns[i]} | 0 <= i < |ns| :: ns[i] in repr + {event}
    ensures 0 < k ==> Put(nodes, k, event)[0] == nodes[0]
  {
  }

  lemma PutShown(nodes: seq<TimerEvent>, timers: seq<Timer>, k: nat, event: TimerEvent)
    requires k <= |nodes| == |timers|
    requires forall i {:trigger nodes[i]} {:trigger timers[i]} | 0 <= i < |nodes| ::
      timers[i] == Timer(nodes[i].id, nodes[i].count, nodes[i].action)
    ensures var ns, ts := Put(nodes, k, event), Put(timers, k, Timer(event.id, event.count, event.action));
      forall i {:trigger ns[i]} {:trigger ts[i]} | 0 <= i <= |nodes| ::
        ts[i] == Timer(ns[i].id, ns[i].count, ns[i].action)
  {
    var ns, ts := Put(nodes, k, event), Put(timers, k, Timer(event.id, event.count, event.action));
    forall i | 0 <= i <= |nodes| ensures ts[i] == Timer(ns[i].id, ns[i].count, ns[i].action) {
      PutIndex(nodes, k, event, i);
      PutIndex(timers, k, Timer(event.id, event.count, event.action), i);
    }
  }

  /** A new event goes into one of two queues; the other one stays as it is. */
  method InsertApart(q: Queue, other: Queue, event: TimerEvent)
    requires Structured(q, other)
    requires event !in q.repr && event !in other.repr
    modifies q, q.repr`next, event`next
    ensures Structured(q, other) && Structured(other, q)
    ensures q.timers == Inserted(old(q.timers), Timer(event.id, event.count, event.action))
    ensures q.repr == old(q.repr) + {event}
  {
    q.Insert(event);
  }

  ghost predicate Structured(main: Queue, deferred: Queue)
    reads main, deferred, main.repr, deferred.repr
  {
    main != deferred && main.Valid() && deferred.Valid() && main.repr !! deferred.repr
  }

  /** The ticks SetTimer computes; the product wraps at 64 bits. */
  function Ticks(uSeconds: nat, asTicks: bool, calibration: nat): nat {
    if asTicks then uSeconds else (uSeconds * calibration) % WORD
  }

  class TimerInfo {
    const main: Queue       // TimerRoot
    const deferred: Queue   // TimerDeferredRoot
    const calibration: nat
    var inTimerInt: bool
    var initialCount: nat   // the timer's initial count register
    var running: bool       // whether it counts down

    var elapsed: nat        // ticks of the present countdown
    ghost var lost: nat     // ticks of countdowns that were given up
    ghost var nextId: nat   // the name of the next timer

    constructor (calibration: nat)
      ensures Idle() && fresh(main) && fresh(deferred) && main.timers == [] && elapsed == lost == nextId == 0
      ensures this.calibration == calibration
    {
      main := new Queue();
      deferred := new Queue();
      this.calibration := calibration;
      inTimerInt, initialCount, running := false, 0, false;
      elapsed, lost, nextId := 0, 0, 0;
    }

    /** The counter runs exactly when some timer waits and none of them has a zero count; it was
        started with the lowest count, as far as the register can hold it. */
    ghost predicate Armed()
      reads this, main
    {
      && (running <==> Counting(main.timers))
      && (main.timers != [] ==> initialCount == CountFor(main.timers))
      && (if running then elapsed < initialCount else elapsed == 0)
    }

    /** Between interrupts. */
    ghost predicate Idle()
      reads this, main, deferred, main.repr, deferred.repr
    {
      Structured(main, deferred) && !inTimerInt && deferred.timers == [] && Armed()
    }

    /** Inside the interrupt, before the counts are debited. */
    ghost predicate Serving()
      reads this, main, deferred, main.repr, deferred.repr
    {
      Structured(main, deferred) && inTimerInt && !running && elapsed == 0
    }

    /** ApicSetTimerCount: writing the register starts the count anew; zero stops it. */
    method SetCount(n: nat)
      modifies this`initialCount, this`running, this`elapsed, this`lost
      ensures initialCount == n && (running <==> n > 0) && elapsed == 0 && lost == old(lost) + old(elapsed)
    {
      initialCount, running := n, n > 0;
      lost, elapsed := lost + elapsed, 0;
    }

    method Enqueue(event: TimerEvent)
      requires Structured(main, deferred) && event !in main.repr && event !in deferred.repr
      modifies this`initialCount, this`running, this`elapsed, this`lost, main, main.repr`next, event`next
      ensures Structured(main, deferred) && Armed() && elapsed == 0 && lost == old(lost) + old(elapsed)
      ensures main.timers == Inserted(old(main.timers), Timer(event.id, event.count, event.action))
      ensures main.repr == old(main.repr) + {event}
    {
      InsertApart(main, deferred, event);
      SetCount(Least(DWORD_MAX, main.root.count));
    }

    method Defer(event: TimerEvent)
      requires Serving() && event !in main.repr && event !in deferred.repr
      modifies deferred, deferred.repr`next, event`next
      ensures Serving()
      ensures deferred.timers == Inserted(old(deferred.timers), Timer(event.id, event.count, event.action))
      ensures deferred.repr == old(deferred.repr) + {event}
    {
      InsertApart(deferred, main, event);
    }

    /** SetTimer, once the ticks are computed, outside the interrupt ... */
    method SetMain(ticks: nat, action: Action, ghost id: nat)
      requires Structured(main, deferred) && !inTimerInt
      modifies this`initialCount, this`running, this`elapsed, this`lost, main, main.repr`next
      ensures Structured(main, deferred) && Armed() && elapsed == 0 && lost == old(lost) + old(elapsed)
      ensures main.timers == Inserted(old(main.timers), Timer(id, ticks, action))
      ensures fresh(main.repr - old(main.repr))
    {
      SetCount(0);
      var event := new TimerEvent(ticks, action, id);
      Enqueue(event);
    }

    /** ... and inside it. */
    method SetDeferred(ticks: nat, action: Action)
      requires Serving()
      modifies this`initialCount, this`running, this`elapsed, this`lost, this`nextId, deferred, deferred.repr`next
      ensures Serving() && lost == old(lost)
      ensures Waiting(nextId, deferred.timers) ==
        Ask(Waiting(old(nextId), old(deferred.timers)), Request(ticks, action))
      ensures fresh(deferred.repr - old(deferred.repr))
    {
      SetCount(0);
      var event := new TimerEvent(ticks, action, nextId);
      nextId := nextId + 1;
      Defer(event);
    }

    /** SetTimer. In a callback the new event waits in the deferred queue; what the counter had
        counted so far is lost. */
    method SetTimer(uSeconds: nat, action: Action, asTicks: bool) returns (ok: bool)
      requires if inTimerInt then Serving() else Idle()
      modifies this`initialCount, this`running, this`elapsed, this`lost, this`nextId
      modifies main, deferred, main.repr`next, deferred.repr`next
      ensures ok && inTimerInt == old(inTimerInt) && (if inTimerInt then Serving() else Idle())
      ensures lost == old(lost) + old(elapsed) && elapsed == 0 && nextId == old(nextId) + 1
      ensures
        var t := Timer(old(nextId), if asTicks then uSeconds else uSeconds * calibration % WORD, action);
        && main.timers == (if inTimerInt then old(main.timers) else Inserted(old(main.timers), t))
        && deferred.timers == (if inTimerInt then Inserted(old(deferred.timers), t) else old(deferred.timers))
      ensures fresh(main.repr - old(main.repr)) && fresh(deferred.repr - old(deferred.repr))
    {
      var ticks := Ticks(uSeconds, asTicks, calibration);
      if inTimerInt {
        SetDeferred(ticks, action);
      } else {
        SetMain(ticks, action, nextId);
        nextId := nextId + 1;
      }
      ok := true;
    }

    /** Time passes within a countdown. */
    method Wait(t: nat)
      requires Idle() && running && elapsed + t < initialCount
      modifies this`elapsed
      ensures Idle() && elapsed == old(elapsed) + t
    {
      elapsed := elapsed + t;
    }

    /** Time passes while the counter stands still: nobody counts it. */
    method Rest(ghost t: nat)
      requires Idle() && !running
      modifies this`lost
      ensures Idle() && lost == old(lost) + t
    {
      lost := lost + t;
    }

    /** In a callback, after the first `k` of its requests. */
    ghost predicate Calling(w0: Waiting, requests: seq<Request>, k: nat)
      reads this, main, deferred, main.repr, deferred.repr
    {
      Serving() && k <= |requests| && Waiting(nextId, deferred.timers) == Asked(w0, requests, k)
    }

    method CallNext(ghost w0: Waiting, requests: seq<Request>, k: nat)
      requires k < |requests| && Calling(w0, requests, k)
      modifies this`initialCount, this`running, this`elapsed, this`lost, this`nextId, deferred, deferred.repr`next
      ensures Calling(w0, requests, k + 1) && lost == old(lost)
      ensures fresh(deferred.repr - old(deferred.repr))
    {
      SetDeferred(requests[k].ticks, requests[k].action);
    }

    /** A callback: any SetTimer calls. */
    method Callback(requests: seq<Request>)
      requires Serving()
      modifies this`initialCount, this`running, this`elapsed, this`lost, this`nextId, deferred, deferred.repr`next
      ensures Serving() && lost == old(lost)
      ensures Waiting(nextId, deferred.timers) ==
        Asked(Waiting(old(nextId), old(deferred.timers)), requests, |requests|)
      ensures fresh(deferred.repr - old(deferred.repr))
    {
      ghost var w0 := Waiting(nextId, deferred.timers);
      var k := 0;
      while k < |requests|
        invariant k <= |requests| && Calling(w0, requests, k) && lost == old(lost)
        invariant fresh(deferred.repr - old(deferred.repr))
      {
        CallNext(w0, requests, k);
        k := k + 1;
      }
    }

    /** The root event has expired: its callback runs, then it leaves the queue. */
    method FireRoot(requests: seq<Request>)
      requires Serving() && main.timers != []
      modifies this`initialCount, this`running, this`elapsed, this`lost, this`nextId, main, deferred
      modifies deferred.repr`next
      ensures Serving() && lost == old(lost)
      ensures main.timers == old(main.timers)[1..] && main.repr == old(main.repr)
      ensures Waiting(nextId, deferred.timers) ==
        Called(Waiting(old(nextId), old(deferred.timers)), old(main.timers)[0], requests)
      ensures fresh(deferred.repr - old(deferred.repr))
    {
      if main.root.action.callback != 0 {
        Callback(requests);
      }
      main.RemoveRoot();
    }

    /** The first `k` timers of the queue have expired and fired. */
    ghost predicate Expiring(q: seq<Timer>, calls: nat -> seq<Request>, count: nat, w0: Waiting, k: nat)
      reads this, main, deferred, main.repr, deferred.repr
    {
      && Serving() && k <= Leading(q, count) && main.timers == q[k..]
      && Waiting(nextId, deferred.timers) == CalledAll(w0, q, calls, k)
    }

    /** The body of the first loop. */
    method FireNext(calls: nat -> seq<Request>, ghost q: seq<Timer>, count: nat, k: nat, ghost w0: Waiting)
      requires Expiring(q, calls, count, w0, k) && main.root != null && main.root.count <= count
      modifies this`initialCount, this`running, this`elapsed, this`lost, this`nextId, main, deferred
      modifies deferred.repr`next
      ensures Expiring(q, calls, count, w0, k + 1) && lost == old(lost) && main.repr == old(main.repr)
      ensures fresh(deferred.repr - old(deferred.repr))
    {
      assert main.timers[0] == q[k] && q[k].left == main.root.count;
      assert q[k..][1..] == q[k + 1..];
      FireRoot(calls(k));
    }

    /** The first loop: the expired events are sequential from the root. */
    method Expire(calls: nat -> seq<Request>, count: nat)
      requires Serving() && deferred.timers == []
      modifies this`initialCount, this`running, this`elapsed, this`lost, this`nextId, main, deferred
      modifies deferred.repr`next
      ensures Serving() && lost == old(lost) && main.repr == old(main.repr)
      ensures main.timers == old(main.timers)[Leading(old(main.timers), count)..]
      ensures Waiting(nextId, deferred.timers) == Deferred(old(main.timers), count, calls, old(nextId))
      ensures fresh(deferred.repr - old(deferred.repr))
    {
      ghost var q, w0 := main.timers, Waiting(nextId, []);
      var k := 0;
      var event := main.root;
      while event != null && event.count <= count
        invariant Expiring(q, calls, count, w0, k) && lost == old(lost)
        invariant event == main.root && main.repr == old(main.repr)
        invariant fresh(deferred.repr - old(deferred.repr))
        decreases |q| - k
      {
        FireNext(calls, q, count, k, w0);
        k := k + 1;
        event := main.root;
      }
      assert k < |q| ==> main.timers[0] == q[k] && q[k].left > count;
    }

    /** The counts are debited, and the first `k` deferred events have joined `q0`. */
    ghost predicate Merging(q0: seq<Timer>, k: nat)
      reads this, main, deferred, main.repr, deferred.repr
    {
      && Structured(main, deferred) && !inTimerInt && elapsed == 0 && k <= |deferred.timers|
      && main.timers == Merged(q0, deferred.timers, k)
    }

    /** A deferred event moves into the queue. */
    method MoveOne(event: TimerEvent, ghost q0: seq<Timer>, ghost k: nat) returns (next: TimerEvent?)
      requires Merging(q0, k) && k < |deferred.nodes| && event == deferred.nodes[k]
      modifies this`initialCount, this`running, this`elapsed, this`lost, main, main.repr`next
      ensures Merging(q0, k + 1) && lost == old(lost) && fresh(main.repr - old(main.repr))
      ensures next == deferred.At(k + 1)
    {
      SetMain(event.count, event.action, event.id);
      next := event.next;
    }

    /** The third loop. */
    method MoveAll(ghost q0: seq<Timer>)
      requires Merging(q0, 0) && !running
      modifies this`initialCount, this`running, this`elapsed, this`lost, main, main.repr`next
      ensures Merging(q0, |deferred.timers|) && lost == old(lost) && fresh(main.repr - old(main.repr))
      ensures deferred.timers == [] ==> !running
    {
      var event := deferred.root;
      ghost var k := 0;
      while event != null
        invariant Merging(q0, k) && event == deferred.At(k) && lost == old(lost) && (k == 0 ==> !running)
        invariant fresh(main.repr - old(main.repr))
        decreases |deferred.timers| - k
      {
        event := MoveOne(event, q0, k);
        k := k + 1;
      }
      assert k == |deferred.timers|;
    }

    method Integrate(ghost q0: seq<Timer>)
      requires Merging(q0, 0) && !running
      modifies this`initialCount, this`running, this`elapsed, this`lost, main, deferred, main.repr`next
      ensures Structured(main, deferred) && !inTimerInt && elapsed == 0 && deferred.timers == []
      ensures main.timers == Merged(q0, old(deferred.timers), |old(deferred.timers)|) && lost == old(lost)
      ensures (main.timers == [] ==> !running) && deferred.repr == old(deferred.repr)
      ensures fresh(main.repr - old(main.repr))
    {
      MoveAll(q0);
      MergedNonempty(q0, deferred.timers, |deferred.timers|);
      deferred.Clear();
    }

    /** The second loop. */
    method DebitRest(count: nat)
      requires Serving() && AtLeast(main.timers, count)
      modifies this`inTimerInt, main`timers, main.repr`count
      ensures Merging(Debited(old(main.timers), count), 0) && !running && lost == old(lost)
      ensures main.repr == old(main.repr) && deferred.timers == old(deferred.timers)
      ensures deferred.repr == old(deferred.repr)
    {
      main.DebitAll(count);
      inTimerInt := false;
    }

    /** The end of the interrupt. */
    method Rearm()
      requires Structured(main, deferred) && !inTimerInt && deferred.timers == [] && elapsed == 0
      requires main.timers == [] ==> !running
      modifies this`initialCount, this`running, this`elapsed, this`lost
      ensures Idle() && lost == old(lost) && elapsed == 0
    {
      if main.root != null {
        SetCount(Least(DWORD_MAX, main.root.count));
      }
    }

    /** IntmgmtTimerInterrupt, when a countdown reaches zero. `calls` gives the SetTimer calls of the
        callbacks, in the order in which the timers expire. */
    method Interrupt(calls: nat -> seq<Request>)
      requires Idle() && running
      modifies this`inTimerInt, this`initialCount, this`running, this`elapsed, this`lost, this`nextId
      modifies main, deferred, main.repr, deferred.repr
      ensures Idle() && lost == old(lost) && elapsed == 0
      ensures
        var q, count := old(main.timers), CountFor(old(main.timers));
        && main.timers == Interrupted(q, count, calls, old(nextId))
        && nextId == Deferred(q, count, calls, old(nextId)).nextId
      ensures fresh(main.repr - old(main.repr)) && fresh(deferred.repr - old(deferred.repr))
    {
      inTimerInt := true;
      running, elapsed := false, 0;
      Process(calls, initialCount);
      Rearm();
    }

    /** The three loops. */
    method Process(calls: nat -> seq<Request>, count: nat)
      requires Serving() && deferred.timers == []
      modifies this`inTimerInt, this`initialCount, this`running, this`elapsed, this`lost, this`nextId
      modifies main, deferred, main.repr, deferred.repr
      ensures Structured(main, deferred) && !inTimerInt && deferred.timers == [] && elapsed == 0 && lost == old(lost)
      ensures main.timers == [] ==> !running
      ensures main.timers == Interrupted(old(main.timers), count, calls, old(nextId))
      ensures nextId == Deferred(old(main.timers), count, calls, old(nextId)).nextId
      ensures fresh(main.repr - old(main.repr)) && fresh(deferred.repr - old(deferred.repr))
    {
      RestAbove(main.timers, count);
      Expire(calls, count);
      ghost var rest := main.timers;
      DebitRest(count);
      Integrate(Debited(rest, count));
    }
  }
}
