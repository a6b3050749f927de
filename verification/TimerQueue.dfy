/** The timer queue of a CPU as a sequence, and what SetTimer and the timer interrupt do to it
    (Kernel/Source/CPU/PerCpu.c, Kernel/Source/Intmgmt/Timer.c). */
module TimerQueue {
  const DWORD_MAX: nat := 0xFFFF_FFFF

  /** What a timer event calls; callback 0 is the null pointer. */
  datatype Action = Action(callback: nat, userParam: nat, flags: nat)

  /** A pending timer; `id` names it among all timers ever set on the CPU. */
  datatype Timer = Timer(id: nat, left: nat, action: Action)

  /** A SetTimer call in a callback, its time converted to ticks. */
  datatype Request = Request(ticks: nat, action: Action)

  ghost predicate InOrder(q: seq<Timer>, i: nat, j: nat) {
    i < |q| && j < |q| && q[i].left <= q[j].left
  }

  ghost predicate Sorted(q: seq<Timer>) {
    forall i: nat, j: nat {:trigger InOrder(q, i, j)} | i < j < |q| :: InOrder(q, i, j)
  }

  /** No element stands at two places. */
  ghost predicate NoRepeat<T>(s: seq<T>) {
    forall i: nat, j: nat {:trigger Differ(s, i, j)} | i < j < |s| :: Differ(s, i, j)
  }

  ghost predicate Differ<T>(s: seq<T>, i: nat, j: nat) {
    i < |s| && j < |s| && s[i] != s[j]
  }

  lemma OthersDiffer<T>(s: seq<T>, k: nat)
    requires NoRepeat(s) && k < |s|
    ensures forall i {:trigger s[i]} | 0 <= i < |s| && i != k :: s[i] != s[k]
  {
    forall i | 0 <= i < |s| && i != k ensures s[i] != s[k] {
      assert Differ(s, if i < k then i else k, if i < k then k else i);
    }
  }

  function Put<T>(s: seq<T>, k: nat, x: T): seq<T>
    requires k <= |s|
  {
    s[..k] + [x] + s[k..]
  }

  lemma PutIndex<T>(s: seq<T>, k: nat, x: T, i: nat)
    requires k <= |s| && i <= |s|
    ensures Put(s, k, x)[i] == if i < k then s[i] else if i == k then x else s[i - 1]
  {
  }

  lemma PutKeeps<T>(s: seq<T>, k: nat, x: T)
    requires k <= |s| && NoRepeat(s) && x !in s
    ensures NoRepeat(Put(s, k, x))
    ensures forall y :: y in Put(s, k, x) <==> y in s || y == x
  {
    var r := Put(s, k, x);
    forall i: nat, j: nat | i < j < |r| ensures Differ(r, i, j) {
      if i != k && j != k { assert Differ(s, if i < k then i else i - 1, if j < k then j else j - 1); }
    }
    forall y | y in s ensures y in r {
      var i :| 0 <= i < |s| && s[i] == y;
      assert y == r[if i < k then i else i + 1];
    }
  }

  lemma TailNoRepeat<T>(s: seq<T>)
    requires s != [] && NoRepeat(s)
    ensures NoRepeat(s[1..]) && s[0] !in s[1..]
  {
    forall i: nat, j: nat | i < j < |s[1..]| ensures Differ(s[1..], i, j) { assert Differ(s, i + 1, j + 1); }
    OthersDiffer(s, 0);
  }

  ghost predicate AtLeast(q: seq<Timer>, ticks: nat) {
    forall i {:trigger q[i]} | 0 <= i < |q| :: ticks <= q[i].left
  }

  ghost predicate Positive(q: seq<Timer>) {
    AtLeast(q, 1)
  }

  /** Where FindTimerEventInsertPoint puts a timer: before the first one not below it. */
  ghost function Point(q: seq<Timer>, ticks: nat): (k: nat)
    ensures k <= |q|
    ensures forall i {:trigger q[i]} | 0 <= i < k :: q[i].left < ticks
    ensures k < |q| ==> ticks <= q[k].left
  {
    if q == [] || ticks <= q[0].left then 0 else 1 + Point(q[1..], ticks)
  }

  ghost function Inserted(q: seq<Timer>, t: Timer): seq<Timer> {
    Put(q, Point(q, t.left), t)
  }

  lemma PointUnique(q: seq<Timer>, ticks: nat, k: nat)
    requires k <= |q| && (forall i {:trigger q[i]} | 0 <= i < k :: q[i].left < ticks)
    requires (k < |q| ==> ticks <= q[k].left)
    ensures k == Point(q, ticks)
  {
  }

  lemma InsertedSorted(q: seq<Timer>, t: Timer)
    requires Sorted(q)
    ensures Sorted(Inserted(q, t))
  {
    var k, r := Point(q, t.left), Inserted(q, t);
    forall i: nat, j: nat | i < j < |r| ensures InOrder(r, i, j) {
      if i == k {
        assert r[j] == q[j - 1] && (k < j - 1 ==> InOrder(q, k, j - 1));
      } else if j == k {
        assert r[i] == q[i];
      } else {
        assert InOrder(q, if i < k then i else i - 1, if j < k then j else j - 1);
      }
    }
  }

  lemma InsertedPositive(q: seq<Timer>, t: Timer)
    ensures Positive(q) && t.left >= 1 ==> Positive(Inserted(q, t))
  {
  }

  /** Every count is `ticks` lower. */
  ghost function Debited(q: seq<Timer>, ticks: nat): seq<Timer> {
    seq(|q|, i requires 0 <= i < |q| => q[i].(left := if q[i].left >= ticks then q[i].left - ticks else 0))
  }

  lemma DebitedSorted(q: seq<Timer>, ticks: nat)
    requires Sorted(q)
    ensures Sorted(Debited(q, ticks))
  {
    forall i: nat, j: nat | i < j < |q| ensures InOrder(Debited(q, ticks), i, j) { assert InOrder(q, i, j); }
  }

  lemma TailSorted(q: seq<Timer>)
    requires Sorted(q) && q != []
    ensures Sorted(q[1..])
  {
    forall i: nat, j: nat | i < j < |q[1..]| ensures InOrder(q[1..], i, j) { assert InOrder(q, i + 1, j + 1); }
  }

  lemma RootLowest(q: seq<Timer>)
    requires Sorted(q) && q != []
    ensures forall i {:trigger q[i]} | 0 <= i < |q| :: q[0].left <= q[i].left
  {
    forall i | 0 < i < |q| ensures q[0].left <= q[i].left { assert InOrder(q, 0, i); }
  }

  function Least(a: nat, b: nat): nat {
    if a < b then a else b
  }

  // ---- The interrupt on queues ----

  /** The timers at the front that have expired after `ticks`. */
  ghost function Leading(q: seq<Timer>, ticks: nat): (e: nat)
    ensures e <= |q|
    ensures forall i {:trigger q[i]} | 0 <= i < e :: q[i].left <= ticks
    ensures e < |q| ==> q[e].left > ticks
  {
    if q == [] || q[0].left > ticks then 0 else 1 + Leading(q[1..], ticks)
  }

  lemma RestAbove(q: seq<Timer>, ticks: nat)
    requires Sorted(q)
    ensures AtLeast(q[Leading(q, ticks)..], ticks + 1)
  {
    var e := Leading(q, ticks);
    forall i | e < i < |q| ensures q[i].left > ticks { assert InOrder(q, e, i); }
  }

  /** The queue of deferred timers, and the next unused name. */
  datatype Waiting = Waiting(nextId: nat, queue: seq<Timer>)

  ghost function Ask(w: Waiting, r: Request): Waiting {
    Waiting(w.nextId + 1, Inserted(w.queue, Timer(w.nextId, r.ticks, r.action)))
  }

  /** After the first `k` requests of a callback. */
  ghost function Asked(w: Waiting, requests: seq<Request>, k: nat): Waiting
    requires k <= |requests|
  {
    if k == 0 then w else Ask(Asked(w, requests, k - 1), requests[k - 1])
  }

  /** After the callback of an expired timer, if it has one. */
  ghost function Called(w: Waiting, t: Timer, requests: seq<Request>): Waiting {
    if t.action.callback == 0 then w else Asked(w, requests, |requests|)
  }

  /** After the callbacks of the first `k` timers; `calls` gives the requests of each. */
  ghost function CalledAll(w: Waiting, q: seq<Timer>, calls: nat -> seq<Request>, k: nat): Waiting
    requires k <= |q|
  {
    if k == 0 then w else Called(CalledAll(w, q, calls, k - 1), q[k - 1], calls(k - 1))
  }

  /** The first `k` deferred timers join the queue. */
  ghost function Merged(q: seq<Timer>, deferred: seq<Timer>, k: nat): seq<Timer>
    requires k <= |deferred|
  {
    if k == 0 then q else Inserted(Merged(q, deferred, k - 1), deferred[k - 1])
  }

  lemma MergedNonempty(q: seq<Timer>, deferred: seq<Timer>, k: nat)
    requires k <= |deferred|
    ensures 0 < k ==> Merged(q, deferred, k) != []
  {
  }

  /** The deferred queue after an interrupt that was entered after `ticks`. */
  ghost function Deferred(q: seq<Timer>, ticks: nat, calls: nat -> seq<Request>, nextId: nat): Waiting {
    CalledAll(Waiting(nextId, []), q, calls, Leading(q, ticks))
  }

  /** The main queue after it. */
  ghost function Interrupted(q: seq<Timer>, ticks: nat, calls: nat -> seq<Request>, nextId: nat): seq<Timer> {
    var w := Deferred(q, ticks, calls, nextId);
    Merged(Debited(q[Leading(q, ticks)..], ticks), w.queue, |w.queue|)
  }

  /** Whether the counter runs with this queue: some timer waits and none has a zero count. */
  ghost predicate Counting(q: seq<Timer>) {
    q != [] && q[0].left > 0
  }

  /** What the counter is started with: the lowest count, as far as the register can hold it. */
  ghost function CountFor(q: seq<Timer>): (count: nat)
    ensures q != [] ==> count == if q[0].left >= 0x1_0000_0000 then 0xFFFF_FFFF else q[0].left
  {
    if q == [] then 0 else Least(DWORD_MAX, q[0].left)
  }
}
