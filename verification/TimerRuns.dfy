/** Whole runs of the per-CPU timer (Kernel/Source/CPU/PerCpu.c, Kernel/Source/Intmgmt/Timer.c): what
    every run does, as a function of its steps, and what that means. */
module TimerRuns {
  import opened TimerQueue
  import opened TimerBooks
  import opened TimerInterrupt

  /** A SetTimer call between interrupts, time passing, or the end of a countdown with whatever the
      callbacks call. */
  datatype Step = Set(uSeconds: nat, action: Action, asTicks: bool) | Pass(t: nat) | Fire(calls: nat -> seq<Request>)

  /** What there is to know between interrupts: the books, the queue, the ticks of the present
      countdown, the ticks that passed without being counted for any timer, and the time. */
  datatype World = World(books: Books, queue: seq<Timer>, elapsed: nat, lost: nat, now: int)

  const Start := World(Books(0, 0, map[], map[]), [], 0, 0, 0)

  /** One step. The end of a countdown is a step of its own, and happens only while the counter runs;
      time that passes while it stands still is not counted. */
  ghost function Stepped(w: World, step: Step, calibration: nat): World {
    match step
    case Set(uSeconds, action, asTicks) =>
      var ticks := Ticks(uSeconds, asTicks, calibration);
      World(w.books.Recorded(ticks), Inserted(w.queue, Timer(w.books.nextId, ticks, action)), 0, w.lost + w.elapsed,
            w.now)
    case Pass(t) =>
      if !Counting(w.queue) then w.(lost := w.lost + t, now := w.now + t)
      else if w.elapsed + t < CountFor(w.queue) then w.(elapsed := w.elapsed + t, now := w.now + t)
      else w
    case Fire(calls) =>
      if !Counting(w.queue) then w
      else
        var count := CountFor(w.queue);
        World(FiredAll(w.books.Advanced(count), w.queue, calls, Leading(w.queue, count)),
              Interrupted(w.queue, count, calls, w.books.nextId), 0, w.lost, w.now + count - w.elapsed)
  }

  /** The worlds of a run, before the first step and after each. */
  ghost predicate History(history: seq<World>, steps: seq<Step>, calibration: nat) {
    && 0 < |history| <= |steps| + 1 && history[0] == Start
    && forall k {:trigger Next(history, steps, calibration, k)} | 0 <= k < |history| - 1 ::
         Next(history, steps, calibration, k)
  }

  ghost predicate Next(history: seq<World>, steps: seq<Step>, calibration: nat, k: int) {
    && 0 <= k < |history| - 1 && k < |steps| && history[k + 1] == Stepped(history[k], steps[k], calibration)
  }

  // ---- What every step keeps ----

  /** The books account for the queue, and the time is what the interrupts counted, the present
      countdown, and what was not counted. */
  ghost predicate Sound(w: World) {
    && Accounts(w.books, w.queue, [], w.books.clock) && Sorted(w.queue)
    && w.now == w.books.clock + w.elapsed + w.lost
    && if Counting(w.queue) then w.elapsed < CountFor(w.queue) else w.elapsed == 0
  }

  lemma QueueAtLeast(q: seq<Timer>)
    requires Sorted(q)
    ensures AtLeast(q, CountFor(q))
  {
    if q != [] { RootLowest(q); }
  }

  lemma SteppedSound(w: World, step: Step, calibration: nat)
    requires Sound(w)
    ensures Sound(Stepped(w, step, calibration))
  {
    match step
    case Set(uSeconds, action, asTicks) =>
      var t := Timer(w.books.nextId, Ticks(uSeconds, asTicks, calibration), action);
      AccountsSetMain(w.books, w.queue, t);
      InsertedSorted(w.queue, t);
    case Pass(t) =>
    case Fire(calls) =>
      if Counting(w.queue) {
        QueueAtLeast(w.queue);
        AccountsInterrupted(w.books.Advanced(CountFor(w.queue)), w.queue, CountFor(w.queue), calls);
      }
  }

  lemma {:induction false} SoundAt(history: seq<World>, steps: seq<Step>, calibration: nat, k: nat)
    requires History(history, steps, calibration) && k < |history|
    ensures Sound(history[k])
  {
    if k == 0 {
      NothingSet();
    } else {
      SoundAt(history, steps, calibration, k - 1);
      assert Next(history, steps, calibration, k - 1);
      SteppedSound(history[k - 1], steps[k - 1], calibration);
    }
  }

  /** Nothing recorded is changed; what fires in a step fires at the clock it leads to; and a step that
      writes into the books leaves no countdown begun. */
  ghost predicate Continues(w: World, w': World) {
    && w.books.clock <= w'.books.clock && Follows(w.books.Advanced(w'.books.clock - w.books.clock), w'.books)
    && (w'.elapsed == 0 || w'.books == w.books)
  }

  lemma SteppedContinues(w: World, step: Step, calibration: nat)
    requires Sound(w)
    ensures Continues(w, Stepped(w, step, calibration))
  {
    match step
    case Set(uSeconds, action, asTicks) =>
    case Pass(t) =>
    case Fire(calls) =>
      if Counting(w.queue) {
        QueueAtLeast(w.queue);
        AccountsInterrupted(w.books.Advanced(CountFor(w.queue)), w.queue, CountFor(w.queue), calls);
      }
  }

  lemma ContinuesAt(history: seq<World>, steps: seq<Step>, calibration: nat, k: nat)
    requires History(history, steps, calibration) && k < |history| - 1
    ensures Continues(history[k], history[k + 1]) && Sound(history[k + 1])
  {
    SoundAt(history, steps, calibration, k);
    SoundAt(history, steps, calibration, k + 1);
    assert Next(history, steps, calibration, k);
    SteppedContinues(history[k], steps[k], calibration);
  }

  /** A due time, once recorded, stays. */
  lemma {:induction false} DueStays(history: seq<World>, steps: seq<Step>, calibration: nat, k: nat, j: nat, id: nat)
    requires History(history, steps, calibration) && k <= j < |history| && id in history[k].books.dues
    ensures id in history[j].books.dues && history[j].books.dues[id] == history[k].books.dues[id]
  {
    if k < j {
      DueStays(history, steps, calibration, k, j - 1, id);
      ContinuesAt(history, steps, calibration, j - 1);
    }
  }

  // ---- How late a timer fires ----

  /** The timer `id` is set in step `k` ... */
  ghost predicate SetIn(history: seq<World>, k: nat, id: nat)
    requires k < |history| - 1
  {
    id !in history[k].books.dues && id in history[k + 1].books.dues
  }

  /** ... and fires in step `j`. */
  ghost predicate FiresIn(history: seq<World>, j: nat, id: nat)
    requires j < |history| - 1
  {
    id !in history[j].books.log && id in history[j + 1].books.log
  }

  /** The ticks that a timer was set for. */
  ghost function TicksOf(w: World, id: nat): int
    requires id in w.books.dues
  {
    w.books.dues[id] - w.books.clock
  }

  /** In a Set step the timer is set for the ticks asked for, and the time stands still. */
  lemma SetRecords(history: seq<World>, steps: seq<Step>, calibration: nat, k: nat)
    requires History(history, steps, calibration) && k < |history| - 1 && steps[k].Set?
    ensures var w, w' := history[k], history[k + 1];
      && SetIn(history, k, w.books.nextId) && w'.now == w.now && w'.lost == w.lost + w.elapsed
      && TicksOf(w', w.books.nextId) ==
         if steps[k].asTicks then steps[k].uSeconds else steps[k].uSeconds * calibration % WORD
  {
    SoundAt(history, steps, calibration, k);
    assert Next(history, steps, calibration, k);
  }

  /** In an interrupt every request of every callback that runs is recorded for its ticks. */
  lemma FireRecords(history: seq<World>, steps: seq<Step>, calibration: nat, k: nat, f: nat, i: nat) returns (id: nat)
    requires History(history, steps, calibration) && k < |history| - 1 && steps[k].Fire?
    requires Runs(history[k].queue, steps[k].calls, f) && i < |steps[k].calls(f)|
    ensures SetIn(history, k, id) && TicksOf(history[k + 1], id) == steps[k].calls(f)[i].ticks
  {
    SoundAt(history, steps, calibration, k);
    assert Next(history, steps, calibration, k);
    id := FiredRecords(history[k].books, history[k].queue, steps[k].calls, f, i);
  }

  lemma FiredRecords(b: Books, q: seq<Timer>, calls: nat -> seq<Request>, f: nat, i: nat) returns (id: nat)
    requires Accounts(b, q, [], b.clock) && Sorted(q) && Runs(q, calls, f) && i < |calls(f)|
    ensures var b' := FiredAll(b.Advanced(CountFor(q)), q, calls, Leading(q, CountFor(q)));
      && id !in b.dues && id in b'.dues && b'.dues[id] - b'.clock == calls(f)[i].ticks
  {
    var count, now := CountFor(q), b.Advanced(CountFor(q));
    QueueAtLeast(q);
    id := FiredAll(now, q, calls, f).nextId + i;
    RequestsRecorded(now, q, count, calls, f, i);
  }

  /** The callback of timer `f` of the queue runs at the end of the countdown. */
  ghost predicate Runs(q: seq<Timer>, calls: nat -> seq<Request>, f: nat) {
    Counting(q) && f < Leading(q, CountFor(q)) && q[f].action.callback != 0
  }

  /** A timer fires its ticks after it was set and, beyond that, later by exactly the ticks that were
      not counted in between; so it is on time if and only if there were none. */
  lemma Lateness(history: seq<World>, steps: seq<Step>, calibration: nat, k: nat, j: nat, id: nat)
    requires History(history, steps, calibration) && k <= j < |history| - 1
    requires SetIn(history, k, id) && FiresIn(history, j, id)
    ensures var asked, fired := history[k + 1], history[j + 1];
      && fired.now == asked.now + TicksOf(asked, id) + (fired.lost - asked.lost)
      && (fired.now == asked.now + TicksOf(asked, id) <==> fired.lost == asked.lost)
  {
    ContinuesAt(history, steps, calibration, k);
    ContinuesAt(history, steps, calibration, j);
    DueStays(history, steps, calibration, k + 1, j + 1, id);
    LateBy(history[k], history[k + 1], history[j], history[j + 1], id);
  }

  /** A timer set for microseconds: it fires their product with the calibration value after it was set,
      later by what was not counted in between, and earlier if and only if the product passes 64 bits. */
  lemma MicrosecondTimer(history: seq<World>, steps: seq<Step>, calibration: nat, k: nat, j: nat)
    requires History(history, steps, calibration) && k <= j < |history| - 1
    requires steps[k].Set? && !steps[k].asTicks && FiresIn(history, j, history[k].books.nextId)
    ensures var lost := history[j + 1].lost - history[k].lost - history[k].elapsed;
      var time := history[j + 1].now - history[k].now - lost;
      && lost >= 0
      && (time == steps[k].uSeconds * calibration <==> steps[k].uSeconds * calibration < 0x1_0000_0000_0000_0000)
      && time <= steps[k].uSeconds * calibration
      && time == steps[k].uSeconds * calibration % 0x1_0000_0000_0000_0000
  {
    SetRecords(history, steps, calibration, k);
    Lateness(history, steps, calibration, k, j, history[k].books.nextId);
    NothingRegained(history, steps, calibration, k + 1, j + 1);
    WrappedProduct(steps[k].uSeconds * calibration);
  }

  lemma WrappedProduct(x: nat)
    ensures x % WORD <= x && (x % WORD == x <==> x < WORD)
  {
  }

  /** A timer set for ticks fires them after it was set, later by what was not counted in between. */
  lemma TickTimer(history: seq<World>, steps: seq<Step>, calibration: nat, k: nat, j: nat)
    requires History(history, steps, calibration) && k <= j < |history| - 1
    requires steps[k].Set? && steps[k].asTicks && FiresIn(history, j, history[k].books.nextId)
    ensures var lost := history[j + 1].lost - history[k].lost - history[k].elapsed;
      lost >= 0 && history[j + 1].now == history[k].now + steps[k].uSeconds + lost
  {
    SetRecords(history, steps, calibration, k);
    Lateness(history, steps, calibration, k, j, history[k].books.nextId);
    NothingRegained(history, steps, calibration, k + 1, j + 1);
  }

  /** What was not counted stays uncounted. */
  lemma {:induction false} NothingRegained(history: seq<World>, steps: seq<Step>, calibration: nat, k: nat, j: nat)
    requires History(history, steps, calibration) && k <= j < |history|
    ensures history[k].lost <= history[j].lost
  {
    if k < j {
      NothingRegained(history, steps, calibration, k, j - 1);
      assert Next(history, steps, calibration, j - 1);
    }
  }

  lemma LateBy(before: World, asked: World, waiting: World, fired: World, id: nat)
    requires Continues(before, asked) && Sound(asked) && id !in before.books.dues && id in asked.books.dues
    requires Continues(waiting, fired) && Sound(fired) && id !in waiting.books.log && id in fired.books.log
    requires id in fired.books.dues && fired.books.dues[id] == asked.books.dues[id]
    ensures fired.now == asked.now + TicksOf(asked, id) + (fired.lost - asked.lost)
  {
    assert fired.books.log[id] == fired.books.dues[id];
  }

  // ---- When the timer stalls ----

  /** The step sets a timer for zero ticks: by a SetTimer call, or by one in a callback that runs. */
  ghost predicate ZeroAsked(w: World, step: Step, calibration: nat) {
    match step
    case Set(uSeconds, _, asTicks) => Ticks(uSeconds, asTicks, calibration) == 0
    case Pass(_) => false
    case Fire(calls) => exists f: nat, i: nat :: ZeroCalled(w.queue, calls, f, i)
  }

  ghost predicate ZeroCalled(q: seq<Timer>, calls: nat -> seq<Request>, f: nat, i: nat) {
    Runs(q, calls, f) && i < |calls(f)| && calls(f)[i].ticks == 0
  }

  /** One of the first `n` steps asks for zero ticks. */
  ghost predicate ZeroBy(history: seq<World>, steps: seq<Step>, calibration: nat, n: nat)
    requires n < |history| <= |steps| + 1
  {
    exists k {:trigger steps[k]} :: 0 <= k < n && ZeroAsked(history[k], steps[k], calibration)
  }

  lemma ZeroIsOverdue(w: World, step: Step, calibration: nat)
    requires Sound(w) && ZeroAsked(w, step, calibration)
    ensures Overdue(Stepped(w, step, calibration).books)
  {
    match step
    case Set(uSeconds, action, asTicks) =>
      var b' := Stepped(w, step, calibration).books;
      assert w.books.nextId in b'.dues && w.books.nextId !in b'.log;
    case Fire(calls) =>
      var f: nat, i: nat :| ZeroCalled(w.queue, calls, f, i);
      var count := CountFor(w.queue);
      QueueAtLeast(w.queue);
      RequestsRecorded(w.books.Advanced(count), w.queue, count, calls, f, i);
      AccountsInterrupted(w.books.Advanced(count), w.queue, count, calls);
  }

  lemma OverdueStays(w: World, step: Step, calibration: nat)
    requires Sound(w) && Overdue(w.books)
    ensures Overdue(Stepped(w, step, calibration).books)
  {
    StalledExactly(w.books, w.queue);
    var id :| id in w.books.dues && id !in w.books.log && w.books.dues[id] <= w.books.clock;
    assert step.Set? ==> id in Stepped(w, step, calibration).books.dues;
  }

  lemma {:induction false} AskedPositive(w: Waiting, requests: seq<Request>, k: nat)
    requires Positive(w.queue) && k <= |requests|
    requires forall i {:trigger requests[i]} | 0 <= i < |requests| :: requests[i].ticks >= 1
    ensures Positive(Asked(w, requests, k).queue)
  {
    if k > 0 {
      AskedPositive(w, requests, k - 1);
      var w1, r := Asked(w, requests, k - 1), requests[k - 1];
      InsertedPositive(w1.queue, Timer(w1.nextId, r.ticks, r.action));
    }
  }

  lemma {:induction false} CalledPositive(w: Waiting, q: seq<Timer>, calls: nat -> seq<Request>, k: nat)
    requires Positive(w.queue) && k <= |q|
    requires forall f: nat, i: nat | f < k && q[f].action.callback != 0 && i < |calls(f)| :: calls(f)[i].ticks >= 1
    ensures Positive(CalledAll(w, q, calls, k).queue)
  {
    if k > 0 {
      CalledPositive(w, q, calls, k - 1);
      if q[k - 1].action.callback != 0 {
        AskedPositive(CalledAll(w, q, calls, k - 1), calls(k - 1), |calls(k - 1)|);
      }
    }
  }

  lemma {:induction false} MergedPositive(q: seq<Timer>, deferred: seq<Timer>, k: nat)
    requires Positive(q) && Positive(deferred) && k <= |deferred|
    ensures Positive(Merged(q, deferred, k))
  {
    if k > 0 {
      MergedPositive(q, deferred, k - 1);
      assert deferred[k - 1].left >= 1;
      InsertedPositive(Merged(q, deferred, k - 1), deferred[k - 1]);
    }
  }

  lemma StaysPositive(w: World, step: Step, calibration: nat)
    requires Sound(w) && Positive(w.queue) && !ZeroAsked(w, step, calibration)
    ensures Positive(Stepped(w, step, calibration).queue)
  {
    match step
    case Set(uSeconds, action, asTicks) =>
      InsertedPositive(w.queue, Timer(w.books.nextId, Ticks(uSeconds, asTicks, calibration), action));
    case Pass(t) =>
    case Fire(calls) =>
      if Counting(w.queue) { InterruptedPositive(w.queue, calls, w.books.nextId); }
  }

  lemma InterruptedPositive(q: seq<Timer>, calls: nat -> seq<Request>, nextId: nat)
    requires Sorted(q) && Counting(q) && forall f: nat, i: nat :: !ZeroCalled(q, calls, f, i)
    ensures Positive(Interrupted(q, CountFor(q), calls, nextId))
  {
    var ticks, e := CountFor(q), Leading(q, CountFor(q));
    RestAbove(q, ticks);
    forall f: nat, i: nat | f < e && q[f].action.callback != 0 && i < |calls(f)| ensures calls(f)[i].ticks >= 1 {
      assert !ZeroCalled(q, calls, f, i);
    }
    CalledPositive(Waiting(nextId, []), q, calls, e);
    var w := Deferred(q, ticks, calls, nextId);
    MergedPositive(Debited(q[e..], ticks), w.queue, |w.queue|);
  }

  /** A timer is overdue if and only if one has been set for zero ticks. */
  lemma {:induction false} OverdueExactly(history: seq<World>, steps: seq<Step>, calibration: nat, n: nat)
    requires History(history, steps, calibration) && n < |history|
    ensures ZeroBy(history, steps, calibration, n) <==> Overdue(history[n].books)
    ensures !Overdue(history[n].books) ==> Positive(history[n].queue)
  {
    if n > 0 {
      OverdueExactly(history, steps, calibration, n - 1);
      SoundAt(history, steps, calibration, n - 1);
      assert Next(history, steps, calibration, n - 1);
      ZeroByMore(history, steps, calibration, n);
      OverdueStep(history[n - 1], steps[n - 1], calibration);
    }
  }

  lemma OverdueStep(w: World, step: Step, calibration: nat)
    requires Sound(w) && (!Overdue(w.books) ==> Positive(w.queue))
    ensures var w' := Stepped(w, step, calibration);
      && (Overdue(w'.books) <==> Overdue(w.books) || ZeroAsked(w, step, calibration))
      && (!Overdue(w'.books) ==> Positive(w'.queue))
  {
    if ZeroAsked(w, step, calibration) {
      ZeroIsOverdue(w, step, calibration);
    } else if Overdue(w.books) {
      OverdueStays(w, step, calibration);
    } else {
      StaysPositive(w, step, calibration);
      SteppedSound(w, step, calibration);
      NotOverdue(Stepped(w, step, calibration));
    }
  }

  lemma ZeroByMore(history: seq<World>, steps: seq<Step>, calibration: nat, n: nat)
    requires 0 < n < |history| <= |steps| + 1
    ensures ZeroBy(history, steps, calibration, n) <==>
      ZeroBy(history, steps, calibration, n - 1) || ZeroAsked(history[n - 1], steps[n - 1], calibration)
  {
  }

  lemma NotOverdue(w: World)
    requires Sound(w) && Positive(w.queue)
    ensures !Overdue(w.books)
  {
    StalledExactly(w.books, w.queue);
  }

  /** At any point of any run: the counter stands still while timers wait if and only if some timer has
      been set for zero ticks; otherwise every timer ever set has fired if and only if the countdowns
      since then add up to its ticks at least, and it fired in the interrupt in which they did. */
  lemma Accounting(history: seq<World>, steps: seq<Step>, calibration: nat, n: nat)
    requires History(history, steps, calibration) && n < |history|
    ensures ZeroBy(history, steps, calibration, n) <==> history[n].queue != [] && !Counting(history[n].queue)
    ensures !ZeroBy(history, steps, calibration, n) ==>
      forall id | id in history[n].books.dues :: FiredWhenDue(history[n].books, id)
  {
    var w := history[n];
    SoundAt(history, steps, calibration, n);
    OverdueExactly(history, steps, calibration, n);
    StalledExactly(w.books, w.queue);
    if !Overdue(w.books) {
      forall id | id in w.books.dues ensures FiredWhenDue(w.books, id) { FiredExactly(w.books, w.queue, id); }
    }
  }

  ghost predicate FiredWhenDue(b: Books, id: nat)
    requires id in b.dues
  {
    (id in b.log <==> b.dues[id] <= b.clock) && (id in b.log ==> b.log[id] == b.dues[id])
  }

  /** What the steps alone say: requests of at least one tick never stall the timer. */
  ghost predicate Nonzero(step: Step, calibration: nat) {
    match step
    case Set(uSeconds, _, asTicks) => Ticks(uSeconds, asTicks, calibration) >= 1
    case Pass(_) => true
    case Fire(calls) => forall f: nat, i: nat | i < |calls(f)| :: calls(f)[i].ticks >= 1
  }

  lemma NonzeroNeverStalls(history: seq<World>, steps: seq<Step>, calibration: nat, n: nat)
    requires n < |history| <= |steps| + 1 && forall k | 0 <= k < n :: Nonzero(steps[k], calibration)
    ensures !ZeroBy(history, steps, calibration, n)
  {
    forall k | 0 <= k < n ensures !ZeroAsked(history[k], steps[k], calibration) {
      assert Nonzero(steps[k], calibration);
    }
  }

  // ---- The runs ----

  /** The timer is in the state `w`. */
  ghost predicate Shows(cpu: TimerInfo, w: World)
    reads cpu, cpu.main, cpu.deferred, cpu.main.repr, cpu.deferred.repr
  {
    && cpu.Idle() && cpu.main.timers == w.queue && cpu.elapsed == w.elapsed && cpu.lost == w.lost
    && cpu.nextId == w.books.nextId
  }

  /** One step does what Stepped says. */
  method Perform(cpu: TimerInfo, step: Step, ghost w: World, ghost w': World)
    requires Shows(cpu, w) && Sound(w) && w' == Stepped(w, step, cpu.calibration)
    modifies cpu, cpu.main, cpu.deferred, cpu.main.repr, cpu.deferred.repr
    ensures Shows(cpu, w')
    ensures fresh(cpu.main.repr - old(cpu.main.repr)) && fresh(cpu.deferred.repr - old(cpu.deferred.repr))
  {
    match step {
      case Set(uSeconds, action, asTicks) =>
        var _ := cpu.SetTimer(uSeconds, action, asTicks);
      case Pass(t) =>
        if !cpu.running {
          cpu.Rest(t);
        } else if cpu.elapsed + t < cpu.initialCount {
          cpu.Wait(t);
        }
      case Fire(calls) =>
        if cpu.running {
          PerformFire(cpu, calls, w);
        }
    }
  }

  method PerformFire(cpu: TimerInfo, calls: nat -> seq<Request>, ghost w: World)
    requires Shows(cpu, w) && Sound(w) && cpu.running
    modifies cpu, cpu.main, cpu.deferred, cpu.main.repr, cpu.deferred.repr
    ensures Shows(cpu, Stepped(w, Fire(calls), cpu.calibration))
    ensures fresh(cpu.main.repr - old(cpu.main.repr)) && fresh(cpu.deferred.repr - old(cpu.deferred.repr))
  {
    QueueAtLeast(w.queue);
    AccountsInterrupted(w.books.Advanced(CountFor(w.queue)), w.queue, CountFor(w.queue), calls);
    cpu.Interrupt(calls);
  }

  /** Any run from the start goes through the worlds that its steps determine, and the timer ends in the
      last of them. Whether it stands still, and what has fired, is what Accounting says of it. */
  method Run(cpu: TimerInfo, steps: seq<Step>) returns (ghost history: seq<World>)
    requires Shows(cpu, Start)
    modifies cpu, cpu.main, cpu.deferred, cpu.main.repr, cpu.deferred.repr
    ensures History(history, steps, cpu.calibration) && |history| == |steps| + 1
    ensures Shows(cpu, history[|steps|])
    ensures !cpu.running && cpu.main.timers != [] <==> ZeroBy(history, steps, cpu.calibration, |steps|)
  {
    history := [Start];
    var k := 0;
    while k < |steps|
      invariant k <= |steps| && |history| == k + 1 && History(history, steps, cpu.calibration)
      invariant Shows(cpu, history[k])
      invariant fresh(cpu.main.repr - old(cpu.main.repr)) && fresh(cpu.deferred.repr - old(cpu.deferred.repr))
    {
      history := PerformNext(cpu, steps, k, history);
      k := k + 1;
    }
    Accounting(history, steps, cpu.calibration, |steps|);
  }

  method PerformNext(cpu: TimerInfo, steps: seq<Step>, k: nat, ghost history: seq<World>)
    returns (ghost history': seq<World>)
    requires History(history, steps, cpu.calibration) && |history| == k + 1 <= |steps| && Shows(cpu, history[k])
    modifies cpu, cpu.main, cpu.deferred, cpu.main.repr, cpu.deferred.repr
    ensures History(history', steps, cpu.calibration) && |history'| == k + 2 && Shows(cpu, history'[k + 1])
    ensures fresh(cpu.main.repr - old(cpu.main.repr)) && fresh(cpu.deferred.repr - old(cpu.deferred.repr))
  {
    ghost var w' := Stepped(history[k], steps[k], cpu.calibration);
    SoundAt(history, steps, cpu.calibration, k);
    HistoryGrows(history, steps, cpu.calibration, w');
    history' := history + [w'];
    Perform(cpu, steps[k], history[k], w');
  }

  lemma HistoryGrows(history: seq<World>, steps: seq<Step>, calibration: nat, w: World)
    requires History(history, steps, calibration) && |history| <= |steps|
    requires w == Stepped(history[|history| - 1], steps[|history| - 1], calibration)
    ensures History(history + [w], steps, calibration)
  {
    var longer := history + [w];
    forall k | 0 <= k < |longer| - 1 ensures Next(longer, steps, calibration, k) {
      if k < |history| - 1 { assert Next(history, steps, calibration, k); }
    }
  }

  // ---- Draining ----

  /** The number of pending timers and of full countdowns that the last one needs. */
  ghost function Measure(q: seq<Timer>): nat {
    if q == [] then 0 else |q| + q[|q| - 1].left / DWORD_MAX
  }

  lemma {:induction false} NothingCalled(w: Waiting, q: seq<Timer>, calls: nat -> seq<Request>, k: nat)
    requires k <= |q| && forall f: nat :: calls(f) == []
    ensures CalledAll(w, q, calls, k) == w
  {
    if k > 0 { NothingCalled(w, q, calls, k - 1); }
  }

  lemma DrainedMeasure(q: seq<Timer>, calls: nat -> seq<Request>, nextId: nat)
    requires Sorted(q) && Counting(q) && forall f: nat :: calls(f) == []
    ensures Measure(Interrupted(q, CountFor(q), calls, nextId)) < Measure(q)
    ensures Positive(Interrupted(q, CountFor(q), calls, nextId))
  {
    var e, r := Leading(q, CountFor(q)), Interrupted(q, CountFor(q), calls, nextId);
    NothingCalled(Waiting(nextId, []), q, calls, e);
    RestAbove(q, CountFor(q));
    RestMeasure(q, e, r);
  }

  lemma RestMeasure(q: seq<Timer>, e: nat, r: seq<Timer>)
    requires Counting(q) && e <= |q| && AtLeast(q[e..], CountFor(q) + 1) && r == Debited(q[e..], CountFor(q))
    requires e == 0 ==> q[0].left > CountFor(q)
    ensures Measure(r) < Measure(q) && Positive(r)
  {
    var rest := q[e..];
    assert forall i {:trigger r[i]} | 0 <= i < |r| :: r[i].left == rest[i].left - CountFor(q);
    if r != [] {
      assert rest[|rest| - 1] == q[|q| - 1];
      FullCountdowns(q[|q| - 1].left, r[|r| - 1].left);
    }
  }

  lemma FullCountdowns(last: nat, left: nat)
    requires left <= last
    ensures left / DWORD_MAX <= last / DWORD_MAX
    ensures last - left == DWORD_MAX ==> left / DWORD_MAX + 1 == last / DWORD_MAX
  {
  }

  /** Without new timers the queue drains in at most as many interrupts as there are timers and full
      countdowns. */
  method Drain(cpu: TimerInfo) returns (n: nat)
    requires cpu.Idle() && (cpu.running || cpu.main.timers == [])
    modifies cpu, cpu.main, cpu.deferred, cpu.main.repr, cpu.deferred.repr
    ensures cpu.Idle() && cpu.main.timers == [] && n <= Measure(old(cpu.main.timers))
  {
    n := 0;
    var calls: nat -> seq<Request> := _ => [];
    while cpu.running
      invariant cpu.Idle() && (cpu.running || cpu.main.timers == [])
      invariant n + Measure(cpu.main.timers) <= Measure(old(cpu.main.timers))
      invariant fresh(cpu.main.repr - old(cpu.main.repr)) && fresh(cpu.deferred.repr - old(cpu.deferred.repr))
      decreases Measure(cpu.main.timers)
    {
      DrainedMeasure(cpu.main.timers, calls, cpu.nextId);
      cpu.Interrupt(calls);
      n := n + 1;
    }
  }
}
