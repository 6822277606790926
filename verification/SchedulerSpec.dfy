/** The scheduler as operations on priority rings (sys/kernel/schedule.c,
    sys/drivers/timer.c, sys/kernel/proc.c).

    A ring is written as the sequence of its process slots, head first.  This is what the
    pointer code of module Scheduler is proved to compute. */
module SchedulerSpec {

  datatype PState = Exited | Zombie | Running | Runnable
    | SleepInterruptible | SleepUninterruptible | Stopped

  /** The scheduler's fields of `struct process`. NULL, NO_ALARM and NO_TTY_BLOCK are 0. */
  datatype Proc = Proc(state: PState, priority: nat, counter: int, sleepingOn: nat,
                       sigpending: set<nat>, alarm: nat, ttyBlock: nat)

  datatype Kernel = Kernel(procs: seq<Proc>, rings: seq<seq<nat>>, current: int, ticks: nat)

  const SIGALRM := 14
  const PROC_QUANTA := 10
  const USER_PRIORITY := 1

  predicate Queued(p: Proc) {
    p.state == Runnable || p.state == Running
  }

  predicate Sleeping(p: Proc) {
    p.state == SleepInterruptible || p.state == SleepUninterruptible
  }

  // ---------------------------------------------------------------------------------
  // The operations
  // ---------------------------------------------------------------------------------

  function IndexOf(r: seq<nat>, i: nat): (k: nat)
    requires i in r
    ensures k < |r| && r[k] == i
  {
    if r[0] == i then 0 else 1 + IndexOf(r[1..], i)
  }

  /** Taking i out of its ring makes i's successor the head. */
  function Unlinked(r: seq<nat>, i: nat): seq<nat>
    requires i in r
  {
    var k := IndexOf(r, i);
    r[k + 1..] + r[..k]
  }

  predicate Shape(k: Kernel) {
    && |k.rings| > USER_PRIORITY
    && -1 <= k.current < |k.procs|
    && forall i | 0 <= i < |k.procs| :: k.procs[i].priority < |k.rings|
  }

  /** Store p in slot i, then put the slot on the queue its state asks for. */
  function Update(k: Kernel, i: nat, p: Proc): (k': Kernel)
    requires Shape(k) && i < |k.procs| && p.priority < |k.rings|
    ensures Shape(k') && |k'.procs| == |k.procs| && |k'.rings| == |k.rings|
    ensures k'.current == k.current && k'.ticks == k.ticks
  {
    var r := k.rings[p.priority];
    var out := if i in r then Unlinked(r, i) else r;
    k.(procs := k.procs[i := p],
       rings := k.rings[p.priority := if Queued(p) then out + [i] else out])
  }

  /** Store p in slot i where the queues do not depend on the change. */
  function Patch(k: Kernel, i: nat, p: Proc): (k': Kernel)
    requires Shape(k) && i < |k.procs| && p.priority == k.procs[i].priority
    ensures Shape(k') && |k'.procs| == |k.procs| && k'.rings == k.rings
    ensures k'.current == k.current && k'.ticks == k.ticks
  {
    k.(procs := k.procs[i := p])
  }

  /** An alarm that has gone off is a pending signal. */
  function Alarmed(p: Proc, ticks: nat): Proc {
    if p.alarm != 0 && p.alarm < ticks then p.(sigpending := p.sigpending + {SIGALRM}, alarm := 0) else p
  }

  predicate TtyExpired(p: Proc, ticks: nat) {
    p.ttyBlock != 0 && p.ttyBlock < ticks
  }

  predicate Interrupted(p: Proc) {
    p.state == SleepInterruptible && p.sigpending != {}
  }

  /** What the scan makes of a process... */
  function Scanned(p: Proc, ticks: nat): Proc {
    var p1 := Alarmed(p, ticks);
    var p2 := if TtyExpired(p1, ticks) then p1.(state := Runnable, ttyBlock := 0) else p1;
    if Interrupted(p2) then p2.(state := Runnable) else p2
  }

  /** ...and whether it requeues it. */
  predicate Requeued(p: Proc, ticks: nat) {
    TtyExpired(p, ticks) || Interrupted(Alarmed(p, ticks))
  }

  /** The highest non-empty ring below n, or -1. */
  function Highest(rings: seq<seq<nat>>, n: nat): (h: int)
    requires n <= |rings|
    ensures -1 <= h < n
    ensures h >= 0 ==> rings[h] != []
    ensures forall q | h < q < n :: rings[q] == []
  {
    if n == 0 then -1 else if rings[n - 1] != [] then n - 1 else Highest(rings, n - 1)
  }

  /** Run the head of the highest non-empty ring. */
  function Pick(k: Kernel): (k': Kernel)
    requires Shape(k) && RingsOk(k)
    ensures Shape(k') && |k'.procs| == |k.procs| && k'.rings == k.rings && k'.ticks == k.ticks
  {
    var h := Highest(k.rings, |k.rings|);
    if h < 0 then k.(current := -1)
    else
      var i := k.rings[h][0];
      assert i in k.rings[h];
      k.(procs := k.procs[i := k.procs[i].(state := Running)], current := i)
  }

  // ---------------------------------------------------------------------------------
  // The ring invariant
  // ---------------------------------------------------------------------------------

  /** A process is in ring q, once, exactly when it is runnable or running at priority q. */
  predicate RingsOk(k: Kernel) {
    && (forall q, x: nat {:trigger x in k.rings[q]} | 0 <= q < |k.rings| && x in k.rings[q] ::
          x < |k.procs| && Queued(k.procs[x]) && k.procs[x].priority == q)
    && (forall q | 0 <= q < |k.rings| :: Distinct(k.rings[q]))
    && (forall i | 0 <= i < |k.procs| && Queued(k.procs[i]) ::
          k.procs[i].priority < |k.rings| && i in k.rings[k.procs[i].priority])
  }

  predicate Distinct(r: seq<nat>) {
    forall j, j' | 0 <= j < j' < |r| :: r[j] != r[j']
  }

  /** Taking i out of its ring leaves the others in their circle, from i's successor on. */
  lemma {:induction false} UnlinkedIs(a: seq<nat>, i: nat, b: seq<nat>)
    requires i !in a
    ensures Unlinked(a + [i] + b, i) == b + a
  {
    var r := a + [i] + b;
    if a != [] {
      UnlinkedIs(a[1..], i, b);
      assert r[1..] == a[1..] + [i] + b;
    }
    FirstAt(a, i, b);
  }

  lemma {:induction false} FirstAt(a: seq<nat>, i: nat, b: seq<nat>)
    requires i !in a
    ensures IndexOf(a + [i] + b, i) == |a|
  {
    if a != [] {
      assert (a + [i] + b)[1..] == a[1..] + [i] + b;
      FirstAt(a[1..], i, b);
    }
  }

  lemma UnlinkedElements(r: seq<nat>, i: nat)
    requires Distinct(r) && i in r
    ensures Distinct(Unlinked(r, i))
    ensures |Unlinked(r, i)| == |r| - 1
    ensures forall x: nat :: x in Unlinked(r, i) <==> x in r && x != i
  {
    var k := IndexOf(r, i);
    var u := Unlinked(r, i);
    forall x: nat ensures x in u <==> x in r && x != i {
      if x in r && x != i {
        var j :| 0 <= j < |r| && r[j] == x;
        assert u[if j > k then j - k - 1 else |r| - k - 1 + j] == x;
      }
    }
  }

  /** A state change followed by requeueing keeps the ring invariant. */
  lemma UpdateKeepsRings(k: Kernel, i: nat, p: Proc)
    requires Shape(k) && RingsOk(k) && i < |k.procs| && p.priority < |k.rings|
    requires p.priority == k.procs[i].priority || !Queued(k.procs[i])
    ensures RingsOk(Update(k, i, p))
  {
    var r := k.rings[p.priority];
    var out := if i in r then Unlinked(r, i) else r;
    if i in r { UnlinkedElements(r, i); }
    assert forall x: nat :: x in out <==> x in r && x != i;
    assert Distinct(out + [i]);
    var r' := Update(k, i, p).rings[p.priority];
    assert forall x: nat :: x in r' <==> (x in r && x != i) || (x == i && Queued(p));
  }

  lemma PatchKeepsRings(k: Kernel, i: nat, p: Proc)
    requires Shape(k) && RingsOk(k) && i < |k.procs| && p.priority == k.procs[i].priority
    requires Queued(p) == Queued(k.procs[i])
    ensures RingsOk(Patch(k, i, p))
  {
  }

  // ---------------------------------------------------------------------------------
  // schedule()
  // ---------------------------------------------------------------------------------

  /** One process of schedule's scan of the process table. */
  function ScanOne(k: Kernel, i: nat): (k': Kernel)
    requires Shape(k) && RingsOk(k) && i < |k.procs|
    ensures Shape(k') && |k'.procs| == |k.procs| && |k'.rings| == |k.rings|
    ensures k'.current == k.current && k'.ticks == k.ticks && RingsOk(k')
    ensures k'.procs == k.procs[i := Scanned(k.procs[i], k.ticks)]
  {
    var p := Scanned(k.procs[i], k.ticks);
    if Requeued(k.procs[i], k.ticks) then
      UpdateKeepsRings(k, i, p);
      Update(k, i, p)
    else
      PatchKeepsRings(k, i, p);
      Patch(k, i, p)
  }

  /** schedule's scan of the process table below n. */
  function Scan(k: Kernel, n: nat): (k': Kernel)
    requires Shape(k) && RingsOk(k) && n <= |k.procs|
    ensures Shape(k') && |k'.procs| == |k.procs| && |k'.rings| == |k.rings|
    ensures k'.current == k.current && k'.ticks == k.ticks
    ensures RingsOk(k')
  {
    if n == 0 then k
    else ScanOne(Scan(k, n - 1), n - 1)
  }

  lemma {:induction false} ScanProcs(k: Kernel, n: nat)
    requires Shape(k) && RingsOk(k) && n <= |k.procs|
    ensures forall i | 0 <= i < |k.procs| ::
      Scan(k, n).procs[i] == if i < n then Scanned(k.procs[i], k.ticks) else k.procs[i]
  {
    if n > 0 {
      ScanProcs(k, n - 1);
    }
  }

  /** Who wakes up goes to the tail of its ring; so does who was in it already and had an
      overdue tty deadline, and the ring then starts behind its old place. All other rings and
      places stay. */
  lemma ScanOneQueues(k: Kernel, i: nat, a: seq<nat>, b: seq<nat>, q: nat)
    requires Shape(k) && RingsOk(k) && i < |k.procs| && q < |k.rings|
    requires var p := k.procs[i];
      k.rings[p.priority] == if Queued(p) then a + [i] + b else a + b
    ensures var p := k.procs[i];
      var rouses := 0 < p.ttyBlock < k.ticks || (p.state == SleepInterruptible && (p.sigpending != {} || 0 < p.alarm < k.ticks));
      ScanOne(k, i).rings[q] ==
        if q != p.priority || !rouses then k.rings[q] else if Queued(p) then b + a + [i] else k.rings[q] + [i]
  {
    var p := k.procs[i];
    if Queued(p) {
      var r := k.rings[p.priority];
      assert r[|a|] == i;
      assert forall j | 0 <= j < |a| :: a[j] == r[j] != r[|a|];
      UnlinkedIs(a, i, b);
    } else {
      assert i !in k.rings[p.priority];
    }
  }

  /** The slots below n with priority q whose interruptible sleep a signal ends. */
  function Roused(procs: seq<Proc>, n: nat, ticks: nat, q: nat): seq<nat>
    requires n <= |procs|
  {
    if n == 0 then []
    else if Interrupted(Alarmed(procs[n - 1], ticks)) && procs[n - 1].priority == q then Roused(procs, n - 1, ticks, q) + [n - 1]
    else Roused(procs, n - 1, ticks, q)
  }

  lemma {:induction false} RousedAre(procs: seq<Proc>, n: nat, ticks: nat, q: nat)
    requires n <= |procs|
    ensures var r := Roused(procs, n, ticks, q);
      && (forall i: nat :: i in r <==>
            i < n && procs[i].priority == q && procs[i].state == SleepInterruptible &&
            (procs[i].sigpending != {} || 0 < procs[i].alarm < ticks))
      && (forall j, j' | 0 <= j < j' < |r| :: r[j] < r[j'])
  {
    if n > 0 {
      RousedAre(procs, n - 1, ticks, q);
      var before := Roused(procs, n - 1, ticks, q);
      assert forall j | 0 <= j < |before| :: before[j] in before;
      assert procs[n - 1].state == SleepInterruptible && 0 < procs[n - 1].alarm < ticks ==>
        SIGALRM in Alarmed(procs[n - 1], ticks).sigpending;
    }
  }

  lemma ScanNextQueues(k: Kernel, n: nat, q: nat)
    requires Shape(k) && RingsOk(k) && n < |k.procs| && q < |k.rings| && !TtyExpired(k.procs[n], k.ticks)
    ensures Scan(k, n + 1).rings[q] ==
      if Interrupted(Alarmed(k.procs[n], k.ticks)) && k.procs[n].priority == q then Scan(k, n).rings[q] + [n]
      else Scan(k, n).rings[q]
  {
    ScanProcs(k, n);
    var s := Scan(k, n);
    assert s.procs[n] == k.procs[n];
    RousedOne(s, n, q);
    hide RingsOk, ScanOne;
  }

  lemma RousedOne(k: Kernel, i: nat, q: nat)
    requires Shape(k) && RingsOk(k) && i < |k.procs| && q < |k.rings| && !TtyExpired(k.procs[i], k.ticks)
    ensures ScanOne(k, i).rings[q] ==
      if Interrupted(Alarmed(k.procs[i], k.ticks)) && k.procs[i].priority == q then k.rings[q] + [i] else k.rings[q]
  {
    if Interrupted(Alarmed(k.procs[i], k.ticks)) {
      assert i !in k.rings[k.procs[i].priority];
    }
  }

  lemma {:induction false} ScanQueues(k: Kernel, n: nat, q: nat)
    requires Shape(k) && RingsOk(k) && n <= |k.procs| && q < |k.rings|
    requires forall i | 0 <= i < n :: !TtyExpired(k.procs[i], k.ticks)
    ensures Scan(k, n).rings[q] == k.rings[q] + Roused(k.procs, n, k.ticks, q)
  {
    assert Scan(k, 0) == k;
    hide RingsOk, Scan, ScanOne, Interrupted, Alarmed, TtyExpired;
    if n > 0 {
      ScanQueues(k, n - 1, q);
      ScanNextQueues(k, n - 1, q);
      var r, before := k.rings[q], Roused(k.procs, n - 1, k.ticks, q);
      assert r + before + [n - 1] == r + (before + [n - 1]);
    }
  }

  function Schedule(k: Kernel): (k': Kernel)
    requires Shape(k) && RingsOk(k)
    ensures Shape(k') && |k'.procs| == |k.procs| && |k'.rings| == |k.rings| && k'.ticks == k.ticks
  {
    Pick(Scan(k, |k.procs|))
  }

  predicate Head(k: Kernel, i: int) {
    && 0 <= i < |k.procs| && k.procs[i].priority < |k.rings|
    && k.rings[k.procs[i].priority] != [] && k.rings[k.procs[i].priority][0] == i
  }

  predicate AlarmDue(p: Proc, ticks: nat) {
    p.alarm != 0 && p.alarm < ticks
  }

  lemma PickChooses(k: Kernel)
    requires Shape(k) && RingsOk(k)
    ensures var k' := Pick(k);
      && RingsOk(k')
      && (k'.current >= 0 ==> Head(k', k'.current) && k'.procs[k'.current].state == Running)
      && (forall i | 0 <= i < |k'.procs| && Queued(k'.procs[i]) ::
            k'.current >= 0 && k'.procs[i].priority <= k'.procs[k'.current].priority)
  {
    var h := Highest(k.rings, |k.rings|);
    assert h >= 0 ==> k.rings[h][0] in k.rings[h];
  }

  /** schedule() keeps the rings, and what it chooses: the current process heads its ring, no
      runnable process has higher priority, and there is no current process only if no
      process is runnable. */
  lemma ScheduleChooses(k: Kernel)
    requires Shape(k) && RingsOk(k)
    ensures var k' := Schedule(k);
      && RingsOk(k')
      && (k'.current >= 0 ==> Head(k', k'.current) && k'.procs[k'.current].state == Running)
      && (forall i | 0 <= i < |k'.procs| && Queued(k'.procs[i]) ::
            k'.current >= 0 && k'.procs[i].priority <= k'.procs[k'.current].priority)
  {
    PickChooses(Scan(k, |k.procs|));
  }

  /** schedule() changes nothing of a process but what the scan asks for and the state of
      the one it picks. */
  lemma ScheduleEffect(k: Kernel, i: nat)
    requires Shape(k) && RingsOk(k) && i < |k.procs|
    ensures Schedule(k).procs[i] ==
      if i == Schedule(k).current then Scanned(k.procs[i], k.ticks).(state := Running)
      else Scanned(k.procs[i], k.ticks)
  {
    ScanProcs(k, |k.procs|);
  }

  /** What schedule() makes of every process, field by field: an alarm that is overdue is
      cleared and leaves SIGALRM pending, an overdue tty deadline is cleared, and who had that
      deadline, or sleeps interruptibly with a signal pending, is runnable. */
  lemma ScheduleMeans(k: Kernel, i: nat)
    requires Shape(k) && RingsOk(k) && i < |k.procs|
    ensures var k' := Schedule(k); var p, p' := k.procs[i], k'.procs[i];
      && p'.priority == p.priority && p'.counter == p.counter && p'.sleepingOn == p.sleepingOn
      && (if 0 < p.alarm < k.ticks then p'.alarm == 0 && p'.sigpending == p.sigpending + {14}
          else p'.alarm == p.alarm && p'.sigpending == p.sigpending)
      && p'.ttyBlock == (if 0 < p.ttyBlock < k.ticks then 0 else p.ttyBlock)
      && (if i == k'.current then p'.state == Running
          else if 0 < p.ttyBlock < k.ticks || (p.state == SleepInterruptible && p'.sigpending != {})
          then p'.state == Runnable
          else p'.state == p.state)
  {
    ScheduleEffect(k, i);
  }

  /** With no tty deadline overdue, schedule() appends to each ring those of its priority whose
      sleep a signal or an alarm ends, in the order of their slots. */
  lemma ScheduleQueues(k: Kernel, q: nat)
    requires Shape(k) && RingsOk(k) && q < |k.rings|
    requires forall i | 0 <= i < |k.procs| :: !TtyExpired(k.procs[i], k.ticks)
    ensures var r := Roused(k.procs, |k.procs|, k.ticks, q);
      && Schedule(k).rings[q] == k.rings[q] + r
      && (forall i: nat :: i in r <==>
            i < |k.procs| && k.procs[i].priority == q && k.procs[i].state == SleepInterruptible &&
            (k.procs[i].sigpending != {} || 0 < k.procs[i].alarm < k.ticks))
      && (forall j, j' | 0 <= j < j' < |r| :: r[j] < r[j'])
  {
    ScanQueues(k, |k.procs|, q);
    RousedAre(k.procs, |k.procs|, k.ticks, q);
  }

  predicate Settled(p: Proc, ticks: nat) {
    !Interrupted(p) && !TtyExpired(p, ticks) && !AlarmDue(p, ticks)
  }

  /** After schedule() no interruptible sleeper has a signal pending, and no alarm or tty
      deadline is overdue. */
  lemma ScheduleSettles(k: Kernel, i: nat)
    requires Shape(k) && RingsOk(k) && i < |k.procs|
    ensures Settled(Schedule(k).procs[i], k.ticks)
  {
    ScheduleEffect(k, i);
    assert Settled(Scanned(k.procs[i], k.ticks), k.ticks);
  }

  // ---------------------------------------------------------------------------------
  // The kernel's entry points, as steps
  // ---------------------------------------------------------------------------------

  /** Holds between any two entries into the kernel. Process 0 never blocks. */
  predicate Inv(k: Kernel) {
    && Shape(k) && RingsOk(k) && Head(k, k.current)
    && Queued(k.procs[0]) && k.procs[0].priority == 0
    && forall i | 0 <= i < |k.procs| :: k.procs[i].counter >= 0
  }

  function Current(k: Kernel): Proc
    requires 0 <= k.current < |k.procs|
  {
    k.procs[k.current]
  }

  /** The current process gives up the processor with state p. */
  function Block(k: Kernel, p: Proc): (k': Kernel)
    requires Inv(k) && p.priority == Current(k).priority
    ensures Shape(k') && |k'.procs| == |k.procs| && |k'.rings| == |k.rings|
  {
    UpdateKeepsRings(k, k.current, p);
    Schedule(Update(k, k.current, p))
  }

  predicate WakesOn(p: Proc, addr: nat) {
    Sleeping(p) && p.sleepingOn == addr
  }

  /** One of the first n processes sleeps on addr. */
  predicate SomeoneWakes(procs: seq<Proc>, n: nat, addr: nat)
    requires n <= |procs|
  {
    n > 0 && (SomeoneWakes(procs, n - 1, addr) || WakesOn(procs[n - 1], addr))
  }

  lemma {:induction false} SomeoneIs(procs: seq<Proc>, n: nat, addr: nat)
    requires n <= |procs|
    ensures SomeoneWakes(procs, n, addr) <==> exists i | 0 <= i < n :: WakesOn(procs[i], addr)
  {
    if n > 0 {
      SomeoneIs(procs, n - 1, addr);
    }
  }

  /** wakeup's scan of the process table below n. */
  function WakeScan(k: Kernel, n: nat, addr: nat): (k': Kernel)
    requires Shape(k) && n <= |k.procs|
    ensures Shape(k') && |k'.procs| == |k.procs| && |k'.rings| == |k.rings|
    ensures k'.current == k.current && k'.ticks == k.ticks
  {
    if n == 0 then k
    else
      var s := WakeScan(k, n - 1, addr);
      if WakesOn(s.procs[n - 1], addr)
      then Update(s, n - 1, s.procs[n - 1].(state := Runnable, sleepingOn := 0)) else s
  }

  lemma {:induction false} WakeScanKeepsRings(k: Kernel, n: nat, addr: nat)
    requires Shape(k) && RingsOk(k) && n <= |k.procs|
    ensures RingsOk(WakeScan(k, n, addr))
  {
    if n > 0 {
      WakeScanKeepsRings(k, n - 1, addr);
      var s := WakeScan(k, n - 1, addr);
      if WakesOn(s.procs[n - 1], addr) {
        UpdateKeepsRings(s, n - 1, s.procs[n - 1].(state := Runnable, sleepingOn := 0));
      }
    }
  }

  function Woken(p: Proc, addr: nat): Proc {
    if WakesOn(p, addr) then p.(state := Runnable, sleepingOn := 0) else p
  }

  lemma {:induction false} WakeScanProcs(k: Kernel, n: nat, addr: nat)
    requires Shape(k) && n <= |k.procs|
    ensures forall i | 0 <= i < |k.procs| ::
      WakeScan(k, n, addr).procs[i] == if i < n then Woken(k.procs[i], addr) else k.procs[i]
  {
    if n > 0 {
      WakeScanProcs(k, n - 1, addr);
    }
  }

  function Wakeup(k: Kernel, addr: nat, switch: bool): (k': Kernel)
    requires Shape(k) && RingsOk(k)
    ensures Shape(k') && |k'.procs| == |k.procs| && |k'.rings| == |k.rings|
  {
    WakeScanKeepsRings(k, |k.procs|, addr);
    var s := WakeScan(k, |k.procs|, addr);
    if switch && (exists i | 0 <= i < |k.procs| :: WakesOn(k.procs[i], addr)) then Schedule(s) else s
  }

  /** wakeup without a switch: exactly the processes asleep on the address, interruptibly or
      not, become runnable... */
  lemma WakeupMeans(k: Kernel, addr: nat, i: nat)
    requires Shape(k) && RingsOk(k) && i < |k.procs|
    ensures var k' := Wakeup(k, addr, false); var p := k.procs[i];
      && k'.current == k.current && k'.ticks == k.ticks
      && k'.procs[i] ==
           if (p.state == SleepInterruptible || p.state == SleepUninterruptible) && p.sleepingOn == addr
           then Proc(Runnable, p.priority, p.counter, 0, p.sigpending, p.alarm, p.ttyBlock) else p
  {
    WakeScanProcs(k, |k.procs|, addr);
  }

  /** The slots below n with priority q that sleep on addr. */
  function Sleepers(procs: seq<Proc>, n: nat, addr: nat, q: nat): seq<nat>
    requires n <= |procs|
  {
    if n == 0 then []
    else if WakesOn(procs[n - 1], addr) && procs[n - 1].priority == q then Sleepers(procs, n - 1, addr, q) + [n - 1]
    else Sleepers(procs, n - 1, addr, q)
  }

  lemma {:induction false} SleepersAre(procs: seq<Proc>, n: nat, addr: nat, q: nat)
    requires n <= |procs|
    ensures var r := Sleepers(procs, n, addr, q);
      && (forall i: nat :: i in r <==> i < n && WakesOn(procs[i], addr) && procs[i].priority == q)
      && (forall j, j' | 0 <= j < j' < |r| :: r[j] < r[j'])
  {
    if n > 0 {
      SleepersAre(procs, n - 1, addr, q);
      var before := Sleepers(procs, n - 1, addr, q);
      assert forall j | 0 <= j < |before| :: before[j] in before;
    }
  }

  lemma WakingAppends(k: Kernel, i: nat, q: nat)
    requires Shape(k) && RingsOk(k) && i < |k.procs| && q < |k.rings| && !Queued(k.procs[i])
    ensures Update(k, i, k.procs[i].(state := Runnable, sleepingOn := 0)).rings[q] ==
      if k.procs[i].priority == q then k.rings[q] + [i] else k.rings[q]
  {
    assert i !in k.rings[k.procs[i].priority];
  }

  lemma WakeScanNext(k: Kernel, n: nat, addr: nat, q: nat)
    requires Shape(k) && RingsOk(k) && n < |k.procs| && q < |k.rings|
    ensures WakeScan(k, n + 1, addr).rings[q] ==
      if WakesOn(k.procs[n], addr) && k.procs[n].priority == q then WakeScan(k, n, addr).rings[q] + [n]
      else WakeScan(k, n, addr).rings[q]
  {
    WakeScanProcs(k, n, addr);
    WakeScanKeepsRings(k, n, addr);
    var s := WakeScan(k, n, addr);
    if WakesOn(s.procs[n], addr) {
      WakingAppends(s, n, q);
    }
    hide RingsOk, Update;
  }

  lemma {:induction false} WakeScanQueues(k: Kernel, n: nat, addr: nat, q: nat)
    requires Shape(k) && RingsOk(k) && n <= |k.procs| && q < |k.rings|
    ensures WakeScan(k, n, addr).rings[q] == k.rings[q] + Sleepers(k.procs, n, addr, q)
  {
    assert WakeScan(k, 0, addr) == k;
    hide RingsOk, WakeScan, Update, WakesOn;
    if n > 0 {
      WakeScanQueues(k, n - 1, addr, q);
      WakeScanNext(k, n - 1, addr, q);
      var r, before := k.rings[q], Sleepers(k.procs, n - 1, addr, q);
      assert r + before + [n - 1] == r + (before + [n - 1]);
    }
  }

  /** ...and queue up behind those that were there, in the order of their slots. */
  lemma WakeupQueues(k: Kernel, addr: nat, q: nat)
    requires Shape(k) && RingsOk(k) && q < |k.rings|
    ensures var r := Sleepers(k.procs, |k.procs|, addr, q);
      && Wakeup(k, addr, false).rings[q] == k.rings[q] + r
      && (forall i: nat :: i in r <==> i < |k.procs| && WakesOn(k.procs[i], addr) && k.procs[i].priority == q)
      && (forall j, j' | 0 <= j < j' < |r| :: r[j] < r[j'])
  {
    SleepersAre(k.procs, |k.procs|, addr, q);
    WakeScanQueues(k, |k.procs|, addr, q);
  }

  /** With a switch, schedule() follows exactly if somebody was woken. */
  lemma WakeupSwitches(k: Kernel, addr: nat)
    requires Shape(k) && RingsOk(k)
    ensures RingsOk(Wakeup(k, addr, false))
    ensures Wakeup(k, addr, true) ==
      if exists i | 0 <= i < |k.procs| :: WakesOn(k.procs[i], addr) then Schedule(Wakeup(k, addr, false)) else k
  {
    WakeScanKeepsRings(k, |k.procs|, addr);
    if forall i | 0 <= i < |k.procs| :: !WakesOn(k.procs[i], addr) {
      NobodyWakes(k, |k.procs|, addr);
    }
  }

  lemma {:induction false} NobodyWakes(k: Kernel, n: nat, addr: nat)
    requires Shape(k) && n <= |k.procs| && forall i | 0 <= i < |k.procs| :: !WakesOn(k.procs[i], addr)
    ensures WakeScan(k, n, addr) == k
  {
    if n > 0 {
      NobodyWakes(k, n - 1, addr);
    }
  }

  /** The current process pays for a tick; one with nothing left goes to the tail. */
  function Charged(k: Kernel): (k': Kernel)
    requires Inv(k)
    ensures Shape(k') && RingsOk(k') && |k'.procs| == |k.procs| && |k'.rings| == |k.rings|
  {
    var k1 := k.(ticks := (k.ticks + 1) % 0x1_0000_0000);
    var p := Current(k);
    if p.counter == 0 then
      UpdateKeepsRings(k1, k.current, p.(counter := 0, state := Runnable));
      Update(k1, k.current, p.(counter := 0, state := Runnable))
    else
      PatchKeepsRings(k1, k.current, p.(counter := p.counter - 1));
      Patch(k1, k.current, p.(counter := p.counter - 1))
  }

  /** The timer interrupt. */
  function Tick(k: Kernel): (k': Kernel)
    requires Inv(k)
    ensures Shape(k') && |k'.procs| == |k.procs| && |k'.rings| == |k.rings|
  {
    Schedule(Charged(k))
  }

  /** The first free slot of the process table, or its length. */
  function FreeSlot(procs: seq<Proc>): (n: nat)
    ensures n <= |procs|
    ensures n < |procs| ==> procs[n].state == Exited
    ensures forall i | 0 <= i < n :: procs[i].state != Exited
  {
    if procs == [] then 0 else if procs[0].state == Exited then 0 else 1 + FreeSlot(procs[1..])
  }

  function ChildOf(p: Proc): Proc {
    p.(alarm := 0, priority := if p.priority == 0 then USER_PRIORITY else p.priority,
       counter := PROC_QUANTA, state := Runnable)
  }

  /** kernel_fork; without a free slot it fails with EAGAIN and changes nothing. */
  function Fork(k: Kernel): (k': Kernel)
    requires Inv(k)
    ensures Shape(k') && |k'.procs| == |k.procs| && |k'.rings| == |k.rings|
  {
    var c := FreeSlot(k.procs);
    if c == |k.procs| then k
    else
      UpdateKeepsRings(k, c, ChildOf(Current(k)));
      Schedule(Update(k, c, ChildOf(Current(k))))
  }

  /** Everything that changes the scheduler's state. Blocks stands for sleep, pause, stop and
      exit: the current process continues with the state and wait channel given. Delivers is
      the step of signal_handler or waitpid that takes a pending signal. */
  datatype Event =
    | TimerTick
    | Blocks(state: PState, addr: nat)
    | Wakes(addr: nat, switch: bool)
    | Forks
    | Signals(target: nat, sig: nat)
    | Delivers(target: nat, sig: nat)
    | Reaps(zombie: nat)
    | SetsAlarm(at: nat)
    | SetsTtyBlock(at: nat)

  predicate Enabled(k: Kernel, ev: Event) {
    match ev
    case Blocks(st, _) => k.current != 0 && st != Running && st != Runnable
    case Signals(i, _) => i < |k.procs|
    case Delivers(i, _) => i < |k.procs|
    case Reaps(i) => i < |k.procs| && k.procs[i].state == Zombie
    case _ => true
  }

  function Step(k: Kernel, ev: Event): (k': Kernel)
    requires Inv(k) && Enabled(k, ev)
    ensures Shape(k') && |k'.procs| == |k.procs| && |k'.rings| == |k.rings|
  {
    match ev
    case TimerTick => Tick(k)
    case Blocks(st, addr) => Block(k, Current(k).(state := st, sleepingOn := addr))
    case Wakes(addr, switch) => Wakeup(k, addr, switch)
    case Forks => Fork(k)
    case Signals(i, sig) => Patch(k, i, k.procs[i].(sigpending := k.procs[i].sigpending + {sig}))
    case Delivers(i, sig) => Patch(k, i, k.procs[i].(sigpending := k.procs[i].sigpending - {sig}))
    case Reaps(i) => Patch(k, i, k.procs[i].(state := Exited))
    case SetsAlarm(at) => Patch(k, k.current, Current(k).(alarm := at))
    case SetsTtyBlock(at) => Patch(k, k.current, Current(k).(ttyBlock := at))
  }

  predicate Ready(k: Kernel) {
    && Shape(k) && RingsOk(k)
    && |k.procs| > 0 && Queued(k.procs[0]) && k.procs[0].priority == 0
    && forall i | 0 <= i < |k.procs| :: k.procs[i].counter >= 0
  }

  lemma ScheduleKeepsInv(k: Kernel)
    requires Ready(k)
    ensures Inv(Schedule(k))
  {
    ScheduleChooses(k);
    forall i | 0 <= i < |k.procs|
      ensures Schedule(k).procs[i].counter == k.procs[i].counter
      ensures Schedule(k).procs[i].priority == k.procs[i].priority
      ensures Queued(k.procs[i]) ==> Queued(Schedule(k).procs[i])
    {
      ScheduleEffect(k, i);
    }
    assert Queued(Schedule(k).procs[0]);
  }

  lemma BlockKeepsInv(k: Kernel, p: Proc)
    requires Inv(k) && k.current != 0 && p.priority == Current(k).priority && p.counter >= 0
    ensures Inv(Block(k, p))
  {
    UpdateKeepsRings(k, k.current, p);
    ScheduleKeepsInv(Update(k, k.current, p));
  }

  lemma TickKeepsInv(k: Kernel)
    requires Inv(k)
    ensures Ready(Charged(k)) && Inv(Tick(k))
  {
    ScheduleKeepsInv(Charged(k));
  }

  lemma ForkKeepsInv(k: Kernel)
    requires Inv(k)
    ensures Inv(Fork(k))
  {
    var c := FreeSlot(k.procs);
    if c < |k.procs| {
      UpdateKeepsRings(k, c, ChildOf(Current(k)));
      ScheduleKeepsInv(Update(k, c, ChildOf(Current(k))));
    }
  }

  /** What fork makes of a free slot: a process like the parent, but queued, with a full
      quantum, without an alarm, and with priority 1 if the parent has 0. */
  lemma ChildMeans(k: Kernel)
    requires Inv(k) && FreeSlot(k.procs) < |k.procs|
    ensures var c := FreeSlot(k.procs); var k' := Fork(k); var p, child := k.procs[k.current], k'.procs[c];
      && Queued(child) && child.priority == (if p.priority == 0 then 1 else p.priority)
      && child.counter == 10 && child.alarm == 0 && child.sigpending == p.sigpending && child.sleepingOn == p.sleepingOn
      && child.ttyBlock == (if 0 < p.ttyBlock < k.ticks then 0 else p.ttyBlock)
      && c in k'.rings[child.priority]
  {
    var c, child := FreeSlot(k.procs), ChildOf(Current(k));
    var k1 := Update(k, c, child);
    UpdateKeepsRings(k, c, child);
    assert k1.procs[c] == child && k1.ticks == k.ticks;
    ScheduleMeans(k1, c);
    ScheduleChooses(k1);
    hide Update, Schedule;
  }

  /** Everybody else is only scanned. Without a free slot nothing changes. */
  lemma ForkMeans(k: Kernel, i: nat)
    requires Inv(k) && i < |k.procs|
    ensures FreeSlot(k.procs) == |k.procs| ==> Fork(k) == k
    ensures FreeSlot(k.procs) < |k.procs| && i != FreeSlot(k.procs) ==>
      Fork(k).procs[i] ==
        if i == Fork(k).current then Scanned(k.procs[i], k.ticks).(state := Running) else Scanned(k.procs[i], k.ticks)
  {
    var c, child := FreeSlot(k.procs), ChildOf(Current(k));
    if c < |k.procs| && i != c {
      var k1 := Update(k, c, child);
      UpdateKeepsRings(k, c, child);
      assert k1.procs[i] == k.procs[i] && k1.ticks == k.ticks;
      ScheduleEffect(k1, i);
      hide Update, Scanned;
    }
  }

  /** The current process pays for the tick, or has nothing left to pay with and is runnable. */
  function Paying(k: Kernel, i: nat): Proc
    requires i < |k.procs|
  {
    var p := k.procs[i];
    if i != k.current then p else if p.counter == 0 then p.(state := Runnable) else p.(counter := p.counter - 1)
  }

  lemma ChargedMeans(k: Kernel, i: nat)
    requires Inv(k) && i < |k.procs|
    ensures Charged(k).ticks == (k.ticks + 1) % 0x1_0000_0000 && Charged(k).procs[i] == Paying(k, i)
  {
  }

  /** A tick charges the current process, and scans all at the new time. */
  lemma TickMeans(k: Kernel, i: nat)
    requires Inv(k) && i < |k.procs|
    ensures var k' := Tick(k); var ticks := (k.ticks + 1) % 0x1_0000_0000;
      && k'.ticks == ticks
      && k'.procs[i] ==
           if i == k'.current then Scanned(Paying(k, i), ticks).(state := Running) else Scanned(Paying(k, i), ticks)
  {
    ChargedMeans(k, i);
    ScheduleEffect(Charged(k), i);
    hide Schedule, Scanned, Charged;
  }

  /** Who blocks takes the state and the address it gave, unless the scan wakes it again;
      everybody else is only scanned. */
  lemma BlocksMeans(k: Kernel, st: PState, addr: nat, i: nat)
    requires Inv(k) && Enabled(k, Blocks(st, addr)) && i < |k.procs|
    ensures var k' := Step(k, Blocks(st, addr));
      var p := if i == k.current then k.procs[i].(state := st, sleepingOn := addr) else k.procs[i];
      k'.procs[i] == if i == k'.current then Scanned(p, k.ticks).(state := Running) else Scanned(p, k.ticks)
  {
    var p := Current(k).(state := st, sleepingOn := addr);
    UpdateKeepsRings(k, k.current, p);
    ScheduleEffect(Update(k, k.current, p), i);
  }

  /** Waking only appends to rings. */
  lemma {:induction false} WakeScanAppends(k: Kernel, n: nat, addr: nat)
    requires Shape(k) && RingsOk(k) && n <= |k.procs|
    ensures forall q | 0 <= q < |k.rings| :: k.rings[q] <= WakeScan(k, n, addr).rings[q]
  {
    if n > 0 {
      WakeScanAppends(k, n - 1, addr);
      var s := WakeScan(k, n - 1, addr);
      WakeScanKeepsRings(k, n - 1, addr);
      if WakesOn(s.procs[n - 1], addr) {
        assert !Queued(s.procs[n - 1]);
        assert n - 1 !in s.rings[s.procs[n - 1].priority];
      }
    }
  }

  lemma WakeupKeepsInv(k: Kernel, addr: nat, switch: bool)
    requires Inv(k)
    ensures Inv(Wakeup(k, addr, switch))
  {
    var s := WakeScan(k, |k.procs|, addr);
    WakeScanKeepsRings(k, |k.procs|, addr);
    WakeScanProcs(k, |k.procs|, addr);
    WakeScanAppends(k, |k.procs|, addr);
    assert Ready(s);
    assert Head(s, s.current) by {
      var q := k.procs[k.current].priority;
      assert k.rings[q] <= s.rings[q];
    }
    ScheduleKeepsInv(s);
  }

  /** The ring invariant and the choice of the current process survive every step. */
  lemma StepKeepsInv(k: Kernel, ev: Event)
    requires Inv(k) && Enabled(k, ev)
    ensures Inv(Step(k, ev))
  {
    match ev
    case TimerTick => TickKeepsInv(k);
    case Blocks(st, addr) => BlockKeepsInv(k, Current(k).(state := st, sleepingOn := addr));
    case Wakes(addr, switch) => WakeupKeepsInv(k, addr, switch);
    case Forks => ForkKeepsInv(k);
    case Signals(i, sig) => PatchKeepsRings(k, i, k.procs[i].(sigpending := k.procs[i].sigpending + {sig}));
    case Delivers(i, sig) => PatchKeepsRings(k, i, k.procs[i].(sigpending := k.procs[i].sigpending - {sig}));
    case Reaps(i) => PatchKeepsRings(k, i, k.procs[i].(state := Exited));
    case SetsAlarm(at) => PatchKeepsRings(k, k.current, Current(k).(alarm := at));
    case SetsTtyBlock(at) => PatchKeepsRings(k, k.current, Current(k).(ttyBlock := at));
  }

  /** A signal is pending from when it is posted until it is taken... */
  lemma SignalsMean(k: Kernel, i: nat, sig: nat)
    requires Inv(k) && i < |k.procs|
    ensures var posted := Step(k, Signals(i, sig)); var taken := Step(k, Delivers(i, sig));
      && posted == k.(procs := k.procs[i := posted.procs[i]]) && taken == k.(procs := k.procs[i := taken.procs[i]])
      && posted.procs[i] == k.procs[i].(sigpending := posted.procs[i].sigpending)
      && taken.procs[i] == k.procs[i].(sigpending := taken.procs[i].sigpending)
      && forall g: nat ::
           && (g in posted.procs[i].sigpending <==> g == sig || g in k.procs[i].sigpending)
           && (g in taken.procs[i].sigpending <==> g != sig && g in k.procs[i].sigpending)
  {
  }

  /** ...and who sleeps interruptibly when it is posted is runnable after the next tick. */
  lemma SignalWakes(k: Kernel, i: nat, sig: nat)
    requires Inv(k) && i < |k.procs| && k.procs[i].state == SleepInterruptible
    ensures Inv(Step(k, Signals(i, sig))) && Queued(Tick(Step(k, Signals(i, sig))).procs[i])
  {
    StepKeepsInv(k, Signals(i, sig));
    var posted := Step(k, Signals(i, sig));
    assert sig in posted.procs[i].sigpending;
    TickMeans(posted, i);
  }

  /** alarm and the tty deadline are the current process's; reaping frees a zombie's slot. */
  lemma SettersMean(k: Kernel, at: nat)
    requires Inv(k)
    ensures Step(k, SetsAlarm(at)) == k.(procs := k.procs[k.current := k.procs[k.current].(alarm := at)])
    ensures Step(k, SetsTtyBlock(at)) == k.(procs := k.procs[k.current := k.procs[k.current].(ttyBlock := at)])
    ensures forall i: nat | i < |k.procs| && Enabled(k, Reaps(i)) ::
      k.procs[i].state == Zombie && Step(k, Reaps(i)) == k.(procs := k.procs[i := k.procs[i].(state := Exited)])
  {
  }

  /** A process that goes to sleep interruptibly stays asleep exactly if it has no signal
      pending and neither an alarm nor a tty deadline is overdue; so it can sleep again once
      its signals are delivered. */
  lemma SleepsUnlessSignalled(k: Kernel, addr: nat)
    requires Inv(k) && k.current != 0
    ensures var k' := Step(k, Blocks(SleepInterruptible, addr)); var p, p' := Current(k), k'.procs[k.current];
      && p'.sleepingOn == addr
      && (p'.state == SleepInterruptible <==>
            p.sigpending == {} && !AlarmDue(p, k.ticks) && !TtyExpired(p, k.ticks))
      && (p'.state == SleepInterruptible ==> k'.current != k.current)
  {
    var p := Current(k).(state := SleepInterruptible, sleepingOn := addr);
    var k1 := Update(k, k.current, p);
    UpdateKeepsRings(k, k.current, p);
    ScheduleEffect(k1, k.current);
    if !Queued(Scanned(p, k.ticks)) {
      NotPicked(k1, k.current);
    }
  }

  /** schedule() picks nobody whom the scan leaves asleep. */
  lemma NotPicked(k: Kernel, i: nat)
    requires Shape(k) && RingsOk(k) && i < |k.procs| && !Queued(Scanned(k.procs[i], k.ticks))
    ensures Schedule(k).current != i
  {
    ScanProcs(k, |k.procs|);
    var s := Scan(k, |k.procs|);
    var h := Highest(s.rings, |s.rings|);
    if h >= 0 {
      assert s.rings[h][0] in s.rings[h];
    }
  }

  function Replay(k: Kernel, evs: seq<Event>): (k': Kernel)
    requires Inv(k)
    ensures Inv(k')
  {
    if evs == [] then k
    else
      var before := Replay(k, evs[..|evs| - 1]);
      var ev := evs[|evs| - 1];
      if Enabled(before, ev) then
        StepKeepsInv(before, ev);
        Step(before, ev)
      else before
  }
}
