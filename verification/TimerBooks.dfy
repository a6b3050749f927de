/** What happened on a CPU's timer, kept as books: when each timer is due and when it fired
    (Kernel/Source/CPU/PerCpu.c, Kernel/Source/Intmgmt/Timer.c). */
module TimerBooks {
  import opened TimerQueue

  ghost predicate HasId(q: seq<Timer>, id: nat) {
    exists i {:trigger q[i]} :: 0 <= i < |q| && q[i].id == id
  }

  ghost predicate DistinctIds(q: seq<Timer>) {
    forall i, j {:trigger q[i], q[j]} | 0 <= i < j < |q| :: q[i].id != q[j].id
  }

  /** The timers are due their remaining count after `at`. */
  ghost predicate Due(q: seq<Timer>, dues: map<nat, nat>, at: int) {
    forall i {:trigger q[i]} | 0 <= i < |q| :: q[i].id in dues && dues[q[i].id] == at + q[i].left
  }

  lemma InsertedIds(q: seq<Timer>, t: Timer)
    ensures forall id :: HasId(Inserted(q, t), id) <==> HasId(q, id) || id == t.id
    ensures DistinctIds(q) && !HasId(q, t.id) ==> DistinctIds(Inserted(q, t))
  {
    var k, r := Point(q, t.left), Inserted(q, t);
    forall id ensures HasId(r, id) <==> HasId(q, id) || id == t.id { InsertedId(q, t, id); }
    if DistinctIds(q) && !HasId(q, t.id) {
      forall i, j | 0 <= i < j < |r| ensures r[i].id != r[j].id {
        PutIndex(q, k, t, i);
        PutIndex(q, k, t, j);
      }
    }
  }

  lemma InsertedId(q: seq<Timer>, t: Timer, id: nat)
    ensures HasId(Inserted(q, t), id) <==> HasId(q, id) || id == t.id
  {
    var k, r := Point(q, t.left), Inserted(q, t);
    PutIndex(q, k, t, k);
    if HasId(q, id) {
      var i :| 0 <= i < |q| && q[i].id == id;
      PutIndex(q, k, t, if i < k then i else i + 1);
    }
    if HasId(r, id) {
      var i :| 0 <= i < |r| && r[i].id == id;
      PutIndex(q, k, t, i);
    }
  }

  lemma InsertedDue(q: seq<Timer>, t: Timer, dues: map<nat, nat>, at: int)
    requires Due(q, dues, at) && t.id in dues && dues[t.id] == at + t.left
    ensures Due(Inserted(q, t), dues, at)
  {
  }

  /** Every timer ever set has fired, exactly when it was due, or is pending in one of two queues. */
  ghost predicate Ledger(dues: map<nat, nat>, log: map<nat, nat>, main: seq<Timer>, deferred: seq<Timer>) {
    && DistinctIds(main) && DistinctIds(deferred)
    && (forall id {:trigger HasId(main, id)} {:trigger HasId(deferred, id)} ::
        !(HasId(main, id) && HasId(deferred, id)))
    && (forall id {:trigger id in log} | id in log ::
        id in dues && log[id] == dues[id] && !HasId(main, id) && !HasId(deferred, id))
    && (forall id {:trigger Known(log, main, deferred, id)} | id in dues :: Known(log, main, deferred, id))
  }

  ghost predicate Known(log: map<nat, nat>, main: seq<Timer>, deferred: seq<Timer>, id: nat) {
    id in log || HasId(main, id) || HasId(deferred, id)
  }

  lemma IdsAppear(q: seq<Timer>)
    ensures forall i {:trigger q[i]} | 0 <= i < |q| :: HasId(q, q[i].id)
  {
  }

  lemma NewIdUnused(dues: map<nat, nat>, q: seq<Timer>, at: int, id: nat, d: nat)
    requires Due(q, dues, at) && id !in dues
    ensures !HasId(q, id) && Due(q, dues[id := d], at)
  {
  }

  lemma SetMain(dues: map<nat, nat>, log: map<nat, nat>, main: seq<Timer>, deferred: seq<Timer>, t: Timer, d: nat)
    requires Ledger(dues, log, main, deferred) && t.id !in dues && !HasId(main, t.id) && !HasId(deferred, t.id)
    ensures Ledger(dues[t.id := d], log, Inserted(main, t), deferred)
  {
    InsertedIds(main, t);
    var main' := Inserted(main, t);
    forall id | id in dues || id == t.id ensures Known(log, main', deferred, id) {
      if id in dues { assert Known(log, main, deferred, id); }
    }
  }

  lemma SetDeferred(dues: map<nat, nat>, log: map<nat, nat>, main: seq<Timer>, deferred: seq<Timer>, t: Timer, d: nat)
    requires Ledger(dues, log, main, deferred) && t.id !in dues && !HasId(main, t.id) && !HasId(deferred, t.id)
    ensures Ledger(dues[t.id := d], log, main, Inserted(deferred, t))
  {
    InsertedIds(deferred, t);
    var deferred' := Inserted(deferred, t);
    forall id | id in dues || id == t.id ensures Known(log, main, deferred', id) {
      if id in dues { assert Known(log, main, deferred, id); }
    }
  }

  lemma TailIds(q: seq<Timer>)
    requires q != [] && DistinctIds(q)
    ensures DistinctIds(q[1..]) && forall id :: HasId(q[1..], id) <==> HasId(q, id) && id != q[0].id
  {
    forall id ensures HasId(q[1..], id) <==> HasId(q, id) && id != q[0].id {
      if HasId(q, id) && id != q[0].id {
        var i :| 0 <= i < |q| && q[i].id == id;
        assert q[1..][i - 1].id == id;
      }
      if HasId(q[1..], id) {
        var i :| 0 <= i < |q[1..]| && q[1..][i].id == id;
        assert q[i + 1].id == id;
      }
    }
  }

  lemma Fire(dues: map<nat, nat>, log: map<nat, nat>, main: seq<Timer>, deferred: seq<Timer>, clock: nat)
    requires Ledger(dues, log, main, deferred) && main != [] && main[0].id in dues && dues[main[0].id] == clock
    ensures Ledger(dues, log[main[0].id := clock], main[1..], deferred) && main[0].id !in log
  {
    TailIds(main);
    IdsAppear(main);
    assert HasId(main, main[0].id);
    var log', rest := log[main[0].id := clock], main[1..];
    forall id | id in dues ensures Known(log', rest, deferred, id) {
      assert Known(log, main, deferred, id);
    }
  }

  lemma Move(dues: map<nat, nat>, log: map<nat, nat>, main: seq<Timer>, deferred: seq<Timer>)
    requires Ledger(dues, log, main, deferred) && deferred != []
    ensures Ledger(dues, log, Inserted(main, deferred[0]), deferred[1..])
  {
    TailIds(deferred);
    InsertedIds(main, deferred[0]);
    assert HasId(deferred, deferred[0].id);
    forall id | id in dues ensures Known(log, Inserted(main, deferred[0]), deferred[1..], id) {
      assert Known(log, main, deferred, id);
    }
  }

  lemma DebitedIds(q: seq<Timer>, ticks: nat)
    ensures DistinctIds(q) ==> DistinctIds(Debited(q, ticks))
    ensures forall id :: HasId(Debited(q, ticks), id) <==> HasId(q, id)
  {
    var r := Debited(q, ticks);
    forall id ensures HasId(r, id) <==> HasId(q, id) {
      if HasId(q, id) { var i :| 0 <= i < |q| && q[i].id == id; assert r[i].id == id; }
      if HasId(r, id) { var i :| 0 <= i < |r| && r[i].id == id; assert q[i].id == id; }
    }
  }

  lemma Debit(dues: map<nat, nat>, log: map<nat, nat>, main: seq<Timer>, deferred: seq<Timer>, ticks: nat)
    requires Ledger(dues, log, main, deferred)
    ensures Ledger(dues, log, Debited(main, ticks), deferred)
  {
    DebitedIds(main, ticks);
    forall id | id in dues ensures Known(log, Debited(main, ticks), deferred, id) {
      assert Known(log, main, deferred, id);
    }
  }

  /** The initial counts of all interrupts so far, the next unused name, by timer the clock at which it
      is due, and by timer the clock at which it fired. */
  datatype Books = Books(clock: nat, nextId: nat, dues: map<nat, nat>, log: map<nat, nat>)
  {
    /** A new timer, due `ticks` after the clock. */
    ghost function Recorded(ticks: nat): Books {
      this.(dues := dues[nextId := clock + ticks], nextId := nextId + 1)
    }

    ghost function Logged(id: nat): Books {
      this.(log := log[id := clock])
    }

    ghost function Advanced(ticks: nat): Books {
      this.(clock := clock + ticks)
    }

    ghost predicate Named() {
      forall id {:trigger id in dues} | id in dues :: id < nextId
    }
  }

  /** The books after the first `k` requests of a callback. */
  ghost function AskedBooks(b: Books, requests: seq<Request>, k: nat): Books
    requires k <= |requests|
  {
    if k == 0 then b else AskedBooks(b, requests, k - 1).Recorded(requests[k - 1].ticks)
  }

  /** The books after a timer has fired and its callback, if any, has run. */
  ghost function FiredBooks(b: Books, t: Timer, requests: seq<Request>): Books {
    (if t.action.callback == 0 then b else AskedBooks(b, requests, |requests|)).Logged(t.id)
  }

  /** The books after the first `k` timers of the queue have fired. */
  ghost function FiredAll(b: Books, q: seq<Timer>, calls: nat -> seq<Request>, k: nat): Books
    requires k <= |q|
  {
    if k == 0 then b else FiredBooks(FiredAll(b, q, calls, k - 1), q[k - 1], calls(k - 1))
  }

  /** The books are right: the ledger holds, the timers of the main queue are due after `at` and the
      deferred ones after the clock. */
  ghost predicate Accounts(b: Books, main: seq<Timer>, deferred: seq<Timer>, at: int) {
    && Ledger(b.dues, b.log, main, deferred)
    && Due(main, b.dues, at) && Due(deferred, b.dues, b.clock)
    && (forall id {:trigger b.log[id]} | id in b.log :: b.log[id] <= b.clock)
    && b.Named()
  }

  lemma NothingSet()
    ensures Accounts(Books(0, 0, map[], map[]), [], [], 0)
  {
  }

  lemma AccountsSetMain(b: Books, main: seq<Timer>, t: Timer)
    requires Accounts(b, main, [], b.clock) && t.id == b.nextId
    ensures Accounts(b.Recorded(t.left), Inserted(main, t), [], b.clock)
  {
    NewIdUnused(b.dues, main, b.clock, t.id, b.clock + t.left);
    SetMain(b.dues, b.log, main, [], t, b.clock + t.left);
    InsertedDue(main, t, b.dues[t.id := b.clock + t.left], b.clock);
  }

  lemma AccountsSetDeferred(b: Books, main: seq<Timer>, deferred: seq<Timer>, at: int, t: Timer)
    requires Accounts(b, main, deferred, at) && t.id == b.nextId
    ensures Accounts(b.Recorded(t.left), main, Inserted(deferred, t), at)
  {
    NewIdUnused(b.dues, main, at, t.id, b.clock + t.left);
    NewIdUnused(b.dues, deferred, b.clock, t.id, b.clock + t.left);
    SetDeferred(b.dues, b.log, main, deferred, t, b.clock + t.left);
    InsertedDue(deferred, t, b.dues[t.id := b.clock + t.left], b.clock);
  }

  lemma AccountsFire(b: Books, main: seq<Timer>, deferred: seq<Timer>, at: int)
    requires Accounts(b, main, deferred, at) && main != [] && at + main[0].left == b.clock
    ensures Accounts(b.Logged(main[0].id), main[1..], deferred, at) && main[0].id !in b.log
  {
    Fire(b.dues, b.log, main, deferred, b.clock);
  }

  lemma AccountsDebit(b: Books, main: seq<Timer>, deferred: seq<Timer>, ticks: nat)
    requires Accounts(b, main, deferred, b.clock - ticks) && AtLeast(main, ticks)
    ensures Accounts(b, Debited(main, ticks), deferred, b.clock)
  {
    Debit(b.dues, b.log, main, deferred, ticks);
  }

  lemma AccountsMove(b: Books, main: seq<Timer>, deferred: seq<Timer>)
    requires Accounts(b, main, deferred, b.clock) && deferred != []
    ensures Accounts(b, Inserted(main, deferred[0]), deferred[1..], b.clock)
  {
    Move(b.dues, b.log, main, deferred);
    InsertedDue(main, deferred[0], b.dues, b.clock);
  }

  /** A timer that is not overdue has fired exactly when its due time is reached. */
  lemma FiredExactly(b: Books, main: seq<Timer>, id: nat)
    requires Accounts(b, main, [], b.clock) && Positive(main) && id in b.dues
    ensures id in b.log <==> b.dues[id] <= b.clock
    ensures id in b.log ==> b.log[id] == b.dues[id]
  {
    assert Known(b.log, main, [], id);
  }

  /** Some timer is due and has not fired. */
  ghost predicate Overdue(b: Books) {
    exists id :: id in b.dues && id !in b.log && b.dues[id] <= b.clock
  }

  /** The counter stands still while timers wait exactly when one of them is due already. */
  lemma StalledExactly(b: Books, q: seq<Timer>)
    requires Accounts(b, q, [], b.clock) && Sorted(q)
    ensures q != [] && !Counting(q) <==> Overdue(b)
  {
    if q != [] {
      RootLowest(q);
      IdsAppear(q);
      assert HasId(q, q[0].id);
    }
    if Overdue(b) {
      var id :| id in b.dues && id !in b.log && b.dues[id] <= b.clock;
      assert Known(b.log, q, [], id);
    }
  }

  /** `next` knows the same timers and perhaps more; what fired has fired, and what fired since did so
      at this clock. */
  ghost predicate Follows(b: Books, next: Books) {
    && next.clock == b.clock
    && (forall id {:trigger id in next.dues} {:trigger id in b.dues} | id in b.dues ::
          id in next.dues && next.dues[id] == b.dues[id])
    && (forall id {:trigger id in next.log} {:trigger id in b.log} | id in b.log ::
          id in next.log && next.log[id] == b.log[id])
    && forall id {:trigger id in next.log} | id in next.log :: id in b.log || next.log[id] == b.clock
  }

  lemma FollowsTwice(b: Books, b1: Books, b2: Books)
    requires Follows(b, b1) && Follows(b1, b2)
    ensures Follows(b, b2)
  {
  }

  // ---- The interrupt ----

  lemma {:induction false} AccountsAsked(b: Books, w: Waiting, main: seq<Timer>, at: int, requests: seq<Request>,
        k: nat)
    requires Accounts(b, main, w.queue, at) && b.nextId == w.nextId && k <= |requests|
    ensures Accounts(AskedBooks(b, requests, k), main, Asked(w, requests, k).queue, at)
    ensures AskedBooks(b, requests, k).nextId == Asked(w, requests, k).nextId
    ensures AskedBooks(b, requests, k).log == b.log && Follows(b, AskedBooks(b, requests, k))
  {
    if k > 0 {
      AccountsAsked(b, w, main, at, requests, k - 1);
      var b1, w1, r := AskedBooks(b, requests, k - 1), Asked(w, requests, k - 1), requests[k - 1];
      AccountsSetDeferred(b1, main, w1.queue, at, Timer(w1.nextId, r.ticks, r.action));
    }
  }

  /** The root fires once, now, whatever its callback sets. */
  lemma AccountsCalled(b: Books, w: Waiting, main: seq<Timer>, at: int, requests: seq<Request>)
    requires Accounts(b, main, w.queue, at) && b.nextId == w.nextId && main != [] && at + main[0].left == b.clock
    ensures Accounts(FiredBooks(b, main[0], requests), main[1..], Called(w, main[0], requests).queue, at)
    ensures FiredBooks(b, main[0], requests).nextId == Called(w, main[0], requests).nextId
    ensures Follows(b, FiredBooks(b, main[0], requests))
    ensures main[0].id !in b.log && FiredBooks(b, main[0], requests).log == b.log[main[0].id := b.clock]
  {
    if main[0].action.callback == 0 {
      AccountsFire(b, main, w.queue, at);
    } else {
      AccountsAsked(b, w, main, at, requests, |requests|);
      AccountsFire(AskedBooks(b, requests, |requests|), main, Asked(w, requests, |requests|).queue, at);
    }
  }

  /** After `k` of the expired timers. They are expired exactly: a countdown never passes a count. */
  lemma {:induction false} AccountsFired(b: Books, q: seq<Timer>, ticks: nat, calls: nat -> seq<Request>, k: nat)
    requires Accounts(b, q, [], b.clock - ticks) && AtLeast(q, ticks) && k <= Leading(q, ticks)
    ensures var b', w := FiredAll(b, q, calls, k), CalledAll(Waiting(b.nextId, []), q, calls, k);
      Accounts(b', q[k..], w.queue, b.clock - ticks) && b'.nextId == w.nextId && Follows(b, b')
    ensures b.nextId <= FiredAll(b, q, calls, k).nextId
    ensures forall id {:trigger id in FiredAll(b, q, calls, k).log} | id in FiredAll(b, q, calls, k).log ::
      id < b.nextId
  {
    if k == 0 {
      assert q[0..] == q;
    } else {
      AccountsFired(b, q, ticks, calls, k - 1);
      var b1, w1 := FiredAll(b, q, calls, k - 1), CalledAll(Waiting(b.nextId, []), q, calls, k - 1);
      assert q[k - 1..][0] == q[k - 1] && q[k - 1..][1..] == q[k..];
      AccountsCalled(b1, w1, q[k - 1..], b.clock - ticks, calls(k - 1));
      FollowsTwice(b, b1, FiredAll(b, q, calls, k));
      assert q[k - 1].id in b.dues;
      NamesGrow(b1, q[k - 1], calls(k - 1));
    }
  }

  lemma NamesGrow(b: Books, t: Timer, requests: seq<Request>)
    ensures b.nextId <= FiredBooks(b, t, requests).nextId
  {
    AskedNames(b, requests, |requests|);
  }

  lemma {:induction false} AskedNames(b: Books, requests: seq<Request>, k: nat)
    requires k <= |requests|
    ensures AskedBooks(b, requests, k).nextId == b.nextId + k && AskedBooks(b, requests, k).clock == b.clock
  {
    if k > 0 { AskedNames(b, requests, k - 1); }
  }

  /** Request `i` of a callback is recorded, due its ticks from now. */
  lemma {:induction false} AskedRecorded(b: Books, requests: seq<Request>, k: nat, i: nat)
    requires i < k <= |requests|
    ensures var dues := AskedBooks(b, requests, k).dues;
      b.nextId + i in dues && dues[b.nextId + i] == b.clock + requests[i].ticks
  {
    AskedNames(b, requests, k - 1);
    if i < k - 1 { AskedRecorded(b, requests, k - 1, i); }
  }

  /** Every request that a callback made in an interrupt is recorded, due its ticks from the clock of
      the interrupt, and none of them fires in it. */
  lemma RequestsRecorded(b: Books, q: seq<Timer>, ticks: nat, calls: nat -> seq<Request>, f: nat, i: nat)
    requires Accounts(b, q, [], b.clock - ticks) && AtLeast(q, ticks) && f < Leading(q, ticks)
    requires q[f].action.callback != 0 && i < |calls(f)|
    ensures var b', id := FiredAll(b, q, calls, Leading(q, ticks)), FiredAll(b, q, calls, f).nextId + i;
      && id in b'.dues && b'.dues[id] == b.clock + calls(f)[i].ticks && id !in b'.log
      && b.nextId <= id && b'.clock == b.clock
  {
    var id := FiredAll(b, q, calls, f).nextId + i;
    AccountsFired(b, q, ticks, calls, f);
    AskedOnFiring(b, q, calls, f, i);
    RequestsStay(b, q, ticks, calls, f + 1, Leading(q, ticks), id);
    NotFiredYet(b, q, ticks, calls, id);
  }

  lemma AskedOnFiring(b: Books, q: seq<Timer>, calls: nat -> seq<Request>, f: nat, i: nat)
    requires f < |q| && q[f].action.callback != 0 && i < |calls(f)|
    ensures var b1, dues := FiredAll(b, q, calls, f), FiredAll(b, q, calls, f + 1).dues;
      b1.nextId + i in dues && dues[b1.nextId + i] == b1.clock + calls(f)[i].ticks
  {
    AskedRecorded(FiredAll(b, q, calls, f), calls(f), |calls(f)|, i);
  }

  lemma NotFiredYet(b: Books, q: seq<Timer>, ticks: nat, calls: nat -> seq<Request>, id: nat)
    requires Accounts(b, q, [], b.clock - ticks) && AtLeast(q, ticks) && b.nextId <= id
    ensures var b' := FiredAll(b, q, calls, Leading(q, ticks)); id !in b'.log && b'.clock == b.clock
  {
    AccountsFired(b, q, ticks, calls, Leading(q, ticks));
  }

  lemma {:induction false} RequestsStay(b: Books, q: seq<Timer>, ticks: nat, calls: nat -> seq<Request>, f: nat,
        e: nat, id: nat)
    requires Accounts(b, q, [], b.clock - ticks) && AtLeast(q, ticks) && f <= e <= Leading(q, ticks)
    requires id in FiredAll(b, q, calls, f).dues
    ensures id in FiredAll(b, q, calls, e).dues
    ensures FiredAll(b, q, calls, e).dues[id] == FiredAll(b, q, calls, f).dues[id]
  {
    if f < e {
      RequestsStay(b, q, ticks, calls, f, e - 1, id);
      AccountsFired(b, q, ticks, calls, e - 1);
      var b1, w1 := FiredAll(b, q, calls, e - 1), CalledAll(Waiting(b.nextId, []), q, calls, e - 1);
      assert q[e - 1..][0] == q[e - 1];
      AccountsCalled(b1, w1, q[e - 1..], b.clock - ticks, calls(e - 1));
    }
  }

  lemma {:induction false} AccountsMerged(b: Books, q: seq<Timer>, deferred: seq<Timer>, k: nat)
    requires Accounts(b, q, deferred, b.clock) && k <= |deferred|
    ensures Accounts(b, Merged(q, deferred, k), deferred[k..], b.clock)
  {
    if k == 0 {
      assert deferred[0..] == deferred;
    } else {
      AccountsMerged(b, q, deferred, k - 1);
      assert deferred[k - 1..][0] == deferred[k - 1] && deferred[k - 1..][1..] == deferred[k..];
      AccountsMove(b, Merged(q, deferred, k - 1), deferred[k - 1..]);
    }
  }

  lemma {:induction false} MergedSorted(q: seq<Timer>, deferred: seq<Timer>, k: nat)
    requires Sorted(q) && k <= |deferred|
    ensures Sorted(Merged(q, deferred, k))
  {
    if k > 0 {
      MergedSorted(q, deferred, k - 1);
      InsertedSorted(Merged(q, deferred, k - 1), deferred[k - 1]);
    }
  }

  lemma {:induction false} SuffixSorted(q: seq<Timer>, k: nat)
    requires Sorted(q) && k <= |q|
    ensures Sorted(q[k..])
  {
    forall i: nat, j: nat | i < j < |q[k..]| ensures InOrder(q[k..], i, j) { assert InOrder(q, k + i, k + j); }
  }

  /** The books and the queue after an interrupt. */
  lemma AccountsInterrupted(b: Books, q: seq<Timer>, ticks: nat, calls: nat -> seq<Request>)
    requires Accounts(b, q, [], b.clock - ticks) && AtLeast(q, ticks) && Sorted(q)
    ensures var b', r := FiredAll(b, q, calls, Leading(q, ticks)), Interrupted(q, ticks, calls, b.nextId);
      && Accounts(b', r, [], b.clock) && Follows(b, b') && Sorted(r)
      && b'.nextId == Deferred(q, ticks, calls, b.nextId).nextId
  {
    var e := Leading(q, ticks);
    var b', w := FiredAll(b, q, calls, e), Deferred(q, ticks, calls, b.nextId);
    AccountsFired(b, q, ticks, calls, e);
    RestAbove(q, ticks);
    AccountsDebit(b', q[e..], w.queue, ticks);
    AccountsMerged(b', Debited(q[e..], ticks), w.queue, |w.queue|);
    assert w.queue[|w.queue|..] == [];
    SuffixSorted(q, e);
    DebitedSorted(q[e..], ticks);
    MergedSorted(Debited(q[e..], ticks), w.queue, |w.queue|);
  }
}
