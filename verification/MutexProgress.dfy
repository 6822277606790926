/** Who gets the mutex (sys/kernel/mutex.c): what one step of mutex_lock does to the process
    that takes it, and that whoever waits can get in once the mutex is unlocked. */
module MutexProgress {
  import opened SchedulerSpec
  import opened Mutex
  import BoundedWaiting

  // ---------------------------------------------------------------------------------
  // One step
  // ---------------------------------------------------------------------------------

  /** i has returned from mutex_lock as the owner. */
  predicate Owns(s: System, i: nat) {
    Inside(s, i) && i < |s.pcs| && s.pcs[i] == Outside && s.owner == i && s.locked
  }

  /** The two reads of the check change nothing but where the process is; it gets past the
      check unless it saw no owner and then a lock. */
  lemma ChecksMean(s: System, t: MStep)
    requires Protocol(s) && CanStep(s, t) && (t == ReadOwner || t == ReadLock)
    ensures var f := After(s, t); var c := s.k.current;
      && f == s.(pcs := f.pcs, panic := f.panic) && |f.pcs| == |s.pcs|
      && (forall j | 0 <= j < |s.pcs| && j != c :: f.pcs[j] == s.pcs[j])
      && (t == ReadOwner ==> f.panic == NoPanic && f.pcs[c] == if s.owner == -1 then SawNoOwner else PastCheck)
      && (t == ReadLock ==> if s.locked then f.panic == CorruptMutex else f.panic == NoPanic && f.pcs[c] == PastCheck)
  {
  }

  /** Who comes to a free mutex, at once or after waiting, has it a step later; nobody else
      notices. */
  lemma FreeMutexIsTaken(s: System, t: MStep)
    requires Protocol(s) && CanStep(s, t) && (t == Enter || t == Retry) && !s.locked
    ensures var f := After(s, t); var c := s.k.current;
      && Owns(f, c) && f.depth[c] == s.depth[c] + 1 && f.k == s.k && f.panic == NoPanic
      && forall j | 0 <= j < |s.pcs| && j != c :: f.pcs[j] == s.pcs[j] && f.depth[j] == s.depth[j]
  {
  }

  /** Who comes to the mutex of another stays out of it, and sleeps on it exactly if no signal
      is pending and no alarm or tty deadline is overdue. Process 0 panics. */
  lemma TakenMutexIsSleptOn(s: System, t: MStep)
    requires Protocol(s) && CanStep(s, t) && (t == Enter || t == Retry) && s.locked && s.owner != s.k.current
    ensures var f := After(s, t); var c := s.k.current; var p := s.k.procs[c];
      && f.locked && f.owner == s.owner && f.depth == s.depth
      && (f.panic == SleepOnFirst <==> c == 0)
      && (c != 0 ==>
            && f.panic == NoPanic && f.pcs == s.pcs[c := Waiting] && f.k.procs[c].sleepingOn == MUTEX
            && (f.k.procs[c].state == SleepInterruptible <==>
                  p.sigpending == {} && !AlarmDue(p, s.k.ticks) && !TtyExpired(p, s.k.ticks))
            && (f.k.procs[c].state == SleepInterruptible ==> f.k.current != c))
  {
    if s.k.current != 0 {
      SleepsUnlessSignalled(s.k, MUTEX);
      StepKeepsInv(s.k, Blocks(SleepInterruptible, MUTEX));
    }
  }

  /** After mutex_unlock nobody owns the mutex, and nobody sleeps on it. */
  lemma UnlockWakes(s: System)
    requires Protocol(s) && CanStep(s, Unlock)
    ensures var f := After(s, Unlock); var c := s.k.current;
      && !f.locked && f.owner == -1 && f.pcs == s.pcs && f.panic == NoPanic
      && f.depth == s.depth[c := s.depth[c] - 1]
      && (forall j | 0 <= j < |s.k.procs| ::
            && !WakesOn(f.k.procs[j], MUTEX)
            && (WakesOn(s.k.procs[j], MUTEX) ==> Queued(f.k.procs[j])))
  {
    WakeupSwitches(s.k, MUTEX);
    forall j | 0 <= j < |s.k.procs|
      ensures !WakesOn(Wakeup(s.k, MUTEX, true).procs[j], MUTEX)
      ensures WakesOn(s.k.procs[j], MUTEX) ==> Queued(Wakeup(s.k, MUTEX, true).procs[j])
    {
      UnlockWakesOne(s.k, j);
    }
  }

  lemma UnlockWakesOne(k: Kernel, j: nat)
    requires Inv(k) && j < |k.procs|
    ensures !WakesOn(Wakeup(k, MUTEX, true).procs[j], MUTEX)
    ensures WakesOn(k.procs[j], MUTEX) ==> Queued(Wakeup(k, MUTEX, true).procs[j])
  {
    WakeupSwitches(k, MUTEX);
    WakeupMeans(k, MUTEX, j);
    if WakesOn(k.procs[j], MUTEX) {
      assert exists i | 0 <= i < |k.procs| :: WakesOn(k.procs[i], MUTEX);
    }
    ScheduleEffect(Wakeup(k, MUTEX, false), j);
  }

  // ---------------------------------------------------------------------------------
  // Sums over the process table
  // ---------------------------------------------------------------------------------

  function Total(s: seq<nat>): nat {
    if s == [] then 0 else s[0] + Total(s[1..])
  }

  lemma {:induction false} TotalMonotone(a: seq<nat>, b: seq<nat>)
    requires |a| == |b| && forall j | 0 <= j < |a| :: a[j] <= b[j]
    ensures Total(a) <= Total(b)
    ensures (exists j | 0 <= j < |a| :: a[j] < b[j]) ==> Total(a) < Total(b)
  {
    if a != [] {
      TotalMonotone(a[1..], b[1..]);
      if j :| 0 <= j < |a| && a[j] < b[j] && j > 0 {
        assert a[1..][j - 1] < b[1..][j - 1];
      }
    }
  }

  /** Processes that wait for a tty with a deadline. */
  function Deadlines(procs: seq<Proc>): seq<nat> {
    seq(|procs|, j requires 0 <= j < |procs| => if procs[j].ttyBlock != 0 then 1 else 0)
  }

  /** Processes somewhere in mutex_lock. */
  function Busy(pcs: seq<Pc>): seq<nat> {
    seq(|pcs|, j requires 0 <= j < |pcs| => if pcs[j] != Outside then 1 else 0)
  }

  /** Processes that are queued, and those that schedule() still has something to do for. */
  function Restless(procs: seq<Proc>, ticks: nat): seq<nat> {
    seq(|procs|, j requires 0 <= j < |procs| =>
      (if Queued(procs[j]) then 1 else 0) + (if Settled(procs[j], ticks) then 0 else 1))
  }

  // ---------------------------------------------------------------------------------
  // Progress of a waiter
  // ---------------------------------------------------------------------------------

  /** The mutex is free, and i waits for it. */
  predicate Hoping(s: System, i: nat) {
    Protocol(s) && s.panic == NoPanic && !s.locked && i < |s.pcs| && s.pcs[i] == Waiting
  }

  /** The waiter's place in its ring. */
  function Place(k: Kernel, i: nat): nat
    requires Shape(k) && i < |k.procs| && i in k.rings[k.procs[i].priority]
  {
    IndexOf(k.rings[k.procs[i].priority], i)
  }

  /** Process 0 runs although i has a higher priority. */
  function Passed(k: Kernel, i: nat): nat
    requires i < |k.procs|
  {
    if k.current == 0 && k.procs[i].priority > 0 then 1 else 0
  }

  function Age(k: Kernel): nat {
    if |k.procs| > 0 && k.procs[0].counter >= 0 then k.procs[0].counter else 0
  }

  /** k' is closer than k to letting i run. */
  predicate Closer(k: Kernel, k': Kernel, i: nat)
    requires Shape(k) && i < |k.procs| && i in k.rings[k.procs[i].priority]
    requires Shape(k') && i < |k'.procs| && i in k'.rings[k'.procs[i].priority]
  {
    var t, t' := Total(Deadlines(k.procs)), Total(Deadlines(k'.procs));
    t' < t || (t' == t &&
      (Place(k', i) < Place(k, i) || (Place(k', i) == Place(k, i) &&
        (Age(k') < Age(k) || (Age(k') == Age(k) &&
          (Passed(k', i) < Passed(k, i) || (Passed(k', i) == Passed(k, i) &&
            Total(Restless(k'.procs, k'.ticks)) < Total(Restless(k.procs, k.ticks)))))))))
  }

  lemma {:induction false} SameIndex(r: seq<nat>, r': seq<nat>, i: nat)
    requires i in r && r <= r'
    ensures i in r' && IndexOf(r', i) == IndexOf(r, i)
  {
    if r[0] != i {
      assert i in r[1..];
      SameIndex(r[1..], r'[1..], i);
    }
  }

  /** schedule() forgets deadlines that are overdue and sets none. */
  lemma ScheduleDeadlines(k: Kernel)
    requires Shape(k) && RingsOk(k)
    ensures Total(Deadlines(Schedule(k).procs)) <= Total(Deadlines(k.procs))
    ensures (exists j | 0 <= j < |k.procs| :: TtyExpired(k.procs[j], k.ticks)) ==>
      Total(Deadlines(Schedule(k).procs)) < Total(Deadlines(k.procs))
  {
    var a, b := Deadlines(Schedule(k).procs), Deadlines(k.procs);
    forall j | 0 <= j < |k.procs|
      ensures a[j] <= b[j] && (TtyExpired(k.procs[j], k.ticks) ==> a[j] < b[j])
    {
      ScheduleEffect(k, j);
    }
    TotalMonotone(a, b);
  }

  /** With no deadline overdue it leaves everybody's place in the rings alone. */
  lemma SchedulePlaces(k: Kernel, q: nat)
    requires Shape(k) && RingsOk(k) && q < |k.rings|
    requires forall j | 0 <= j < |k.procs| :: !TtyExpired(k.procs[j], k.ticks)
    ensures k.rings[q] <= Schedule(k).rings[q]
  {
    forall j | 0 <= j < |k.procs| ensures BoundedWaiting.QuietProc(k.procs[j], |k.rings|, k.ticks) {}
    BoundedWaiting.QuietScanAppends(k, |k.procs|, |k.rings|);
  }

  /** Nobody becomes more restless, and a process that was out of the queues with nothing due
      is calm. */
  lemma ScheduleCalms(k: Kernel, j: nat)
    requires Shape(k) && RingsOk(k) && j < |k.procs|
    ensures Restless(Schedule(k).procs, k.ticks)[j] <= Restless(k.procs, k.ticks)[j]
  {
    ScheduleEffect(k, j);
    ScheduleSettles(k, j);
    ScheduleChooses(k);
    if !Queued(Scanned(k.procs[j], k.ticks)) {
      NotPicked(k, j);
    }
  }

  lemma HopingIsQueued(s: System, i: nat)
    requires Hoping(s, i)
    ensures i in s.k.rings[s.k.procs[i].priority]
    ensures s.k.current >= 0 && s.k.current in s.k.rings[s.k.procs[s.k.current].priority]
  {
    assert WaiterOk(s.k.procs[i], s.locked);
    assert Head(s.k, s.k.current);
  }

  /** schedule() after a change k1 of k that leaves deadlines, i's ring or what is ahead of i
      in it, and process 0 no worse. */
  lemma ScheduledPlace(k: Kernel, k1: Kernel, i: nat)
    requires Shape(k) && i < |k.procs| && i in k.rings[k.procs[i].priority]
    requires Shape(k1) && RingsOk(k1) && |k1.procs| == |k.procs| && i in k1.rings[k1.procs[i].priority]
    requires forall j | 0 <= j < |k.procs| :: k1.procs[j].ttyBlock == k.procs[j].ttyBlock
    ensures var k' := Schedule(k1); var t, t' := Total(Deadlines(k.procs)), Total(Deadlines(k'.procs));
      && k'.procs[i].priority == k1.procs[i].priority && i in k'.rings[k'.procs[i].priority]
      && (t' < t || (t' == t && Place(k', i) == Place(k1, i)))
  {
    ScheduleDeadlines(k1);
    ScheduleEffect(k1, i);
    ScheduleChooses(k1);
    assert Deadlines(k1.procs) == Deadlines(k.procs);
    var q := k1.procs[i].priority;
    if forall j | 0 <= j < |k1.procs| :: !TtyExpired(k1.procs[j], k1.ticks) {
      SchedulePlaces(k1, q);
      SameIndex(k1.rings[q], Schedule(k1).rings[q], i);
    }
  }

  lemma HeadLeaves(r: seq<nat>, i: nat)
    requires i in r && r[0] != i
    ensures i in r[1..] && IndexOf(r[1..], i) == IndexOf(r, i) - 1
  {
  }

  /** The current process of k blocks for good. */
  function Retired(k: Kernel): (k': Kernel)
    requires Inv(k)
    ensures Shape(k') && RingsOk(k') && |k'.procs| == |k.procs| && k'.ticks == k.ticks
  {
    var p := Current(k).(state := SleepUninterruptible, sleepingOn := 0);
    UpdateKeepsRings(k, k.current, p);
    Update(k, k.current, p)
  }

  const RETIRE := Other(Blocks(SleepUninterruptible, 0))

  lemma RetiredRings(k: Kernel, i: nat)
    requires Inv(k) && i < |k.procs| && i in k.rings[k.procs[i].priority] && i != k.current
    ensures Retired(k).procs[i] == k.procs[i] && i in Retired(k).rings[k.procs[i].priority]
    ensures Place(Retired(k), i) <= Place(k, i)
    ensures Deadlines(Retired(k).procs) == Deadlines(k.procs)
  {
    var c := k.current;
    var r := k.rings[Current(k).priority];
    assert IndexOf(r, c) == 0 && Unlinked(r, c) == r[1..];
    if k.procs[i].priority == Current(k).priority {
      HeadLeaves(r, i);
    }
  }

  lemma RetiredCalms(k: Kernel)
    requires Inv(k)
    ensures Total(Restless(Retired(k).procs, k.ticks)) < Total(Restless(k.procs, k.ticks))
  {
    var a, b := Restless(Retired(k).procs, k.ticks), Restless(k.procs, k.ticks);
    forall j | 0 <= j < |k.procs|
      ensures a[j] <= b[j] && (j == k.current ==> a[j] < b[j])
    {
      assert j == k.current ==> Queued(k.procs[j]) && !Queued(Retired(k).procs[j]);
    }
    assert a[k.current] < b[k.current];
    TotalMonotone(a, b);
  }

  lemma AllCalm(k: Kernel)
    requires Shape(k) && RingsOk(k)
    ensures Total(Restless(Schedule(k).procs, k.ticks)) <= Total(Restless(k.procs, k.ticks))
  {
    forall j | 0 <= j < |k.procs|
      ensures Restless(Schedule(k).procs, k.ticks)[j] <= Restless(k.procs, k.ticks)[j]
    {
      ScheduleCalms(k, j);
    }
    TotalMonotone(Restless(Schedule(k).procs, k.ticks), Restless(k.procs, k.ticks));
  }

  lemma SameAge(k: Kernel)
    requires Ready(k)
    ensures Age(Schedule(k)) == Age(k)
  {
    ScheduleMeans(k, 0);
  }

  /** Whoever is queued above process 0 keeps it from running. */
  lemma NotPassed(k: Kernel, i: nat)
    requires Ready(k) && i < |k.procs| && Queued(k.procs[i])
    ensures Passed(Schedule(k), i) == 0
  {
    var k' := Schedule(k);
    ScheduleMeans(k, 0);
    ScheduleMeans(k, i);
    ScheduleChooses(k);
    hide Schedule, RingsOk;
    assert Queued(k'.procs[i]) && k'.procs[0].priority == 0;
  }

  lemma RetiringIsCloser(k: Kernel, i: nat)
    requires Inv(k) && k.current != 0 && i < |k.procs| && i != k.current && i in k.rings[k.procs[i].priority]
    ensures var k' := Step(k, Blocks(SleepUninterruptible, 0));
      i in k'.rings[k'.procs[i].priority] && Closer(k, k', i)
  {
    RetiredRings(k, i);
    RetiredCalms(k);
    hide Restless, Deadlines, IndexOf;
    AllCalm(Retired(k));
    ScheduledPlace(k, Retired(k), i);
    NotPassed(Retired(k), i);
    SameAge(Retired(k));
  }

  lemma RetireCloser(s: System, i: nat)
    requires Hoping(s, i) && s.k.current != 0 && s.k.current != i && s.pcs[s.k.current] == Outside
    ensures CanStep(s, RETIRE) && Hoping(After(s, RETIRE), i) && After(s, RETIRE).pcs == s.pcs
    ensures (HopingIsQueued(s, i); HopingIsQueued(After(s, RETIRE), i); Closer(s.k, After(s, RETIRE).k, i))
  {
    StepKeepsProtocol(s, RETIRE);
    HopingIsQueued(s, i);
    RetiringIsCloser(s.k, i);
  }

  /** Process 0 pays for a tick. */
  lemma ChargedRings(k: Kernel, i: nat)
    requires Inv(k) && k.current == 0 && i < |k.procs| && i in k.rings[k.procs[i].priority] && i != 0
    ensures Charged(k).procs[i] == k.procs[i] && i in Charged(k).rings[k.procs[i].priority]
    ensures Deadlines(Charged(k).procs) == Deadlines(k.procs)
    ensures Place(Charged(k), i) < Place(k, i) || (Place(Charged(k), i) == Place(k, i) &&
      (Age(Charged(k)) < Age(k) || (Age(Charged(k)) == Age(k) && k.procs[i].priority > 0)))
  {
    var r := k.rings[0];
    if Current(k).counter == 0 {
      assert IndexOf(r, 0) == 0 && Unlinked(r, 0) == r[1..];
      if k.procs[i].priority == 0 {
        HeadLeaves(r, i);
        SameIndex(r[1..], r[1..] + [0], i);
      }
    }
  }

  lemma TickingIsCloser(k: Kernel, i: nat)
    requires Inv(k) && k.current == 0 && i < |k.procs| && i != 0 && i in k.rings[k.procs[i].priority]
    ensures i in Tick(k).rings[Tick(k).procs[i].priority] && Closer(k, Tick(k), i)
  {
    ChargedRings(k, i);
    TickKeepsInv(k);
    hide Restless, Deadlines, IndexOf;
    ScheduledPlace(k, Charged(k), i);
    NotPassed(Charged(k), i);
    SameAge(Charged(k));
  }

  lemma TickCloser(s: System, i: nat)
    requires Hoping(s, i) && s.k.current == 0 && i != 0
    ensures var t := Other(TimerTick);
      && CanStep(s, t) && Hoping(After(s, t), i) && After(s, t).pcs == s.pcs
      && (HopingIsQueued(s, i); HopingIsQueued(After(s, t), i); Closer(s.k, After(s, t).k, i))
  {
    StepKeepsProtocol(s, Other(TimerTick));
    HopingIsQueued(s, i);
    TickingIsCloser(s.k, i);
  }

  // ---------------------------------------------------------------------------------
  // Whoever waits can get in
  // ---------------------------------------------------------------------------------

  /** From wherever it is in mutex_lock to the end of the next mutex_unlock. */
  function WayOut(pc: Pc): seq<MStep> {
    match pc
    case Outside => []
    case SawNoOwner => [ReadLock] + ([Enter] + [Unlock])
    case PastCheck => [Enter] + [Unlock]
    case Waiting => [Retry] + [Unlock]
  }

  lemma EntersAndLeaves(s: System, t: MStep)
    requires Protocol(s) && CanStep(s, t) && (t == Enter || t == Retry) && !s.locked
    ensures CanRun(s, [t] + [Unlock])
    ensures var f := Final(s, [t] + [Unlock]);
      && f.k == Wakeup(s.k, MUTEX, true) && f.pcs == s.pcs[s.k.current := Outside]
      && Protocol(f) && !f.locked && f.panic == NoPanic
  {
    var s1 := After(s, t);
    OneMore(s1, Unlock, []);
    OneMore(s, t, [Unlock]);
    StepKeepsProtocol(s, t);
    StepKeepsProtocol(s1, Unlock);
  }

  lemma PassesAndLeaves(s: System)
    requires Protocol(s) && CanStep(s, ReadLock) && !s.locked
    ensures CanRun(s, WayOut(SawNoOwner))
    ensures var f := Final(s, WayOut(SawNoOwner));
      && f.k == Wakeup(s.k, MUTEX, true) && f.pcs == s.pcs[s.k.current := Outside]
      && Protocol(f) && !f.locked && f.panic == NoPanic
  {
    var s1 := After(s, ReadLock);
    StepKeepsProtocol(s, ReadLock);
    assert s1.pcs[s.k.current := Outside] == s.pcs[s.k.current := Outside];
    EntersAndLeaves(s1, Enter);
    OneMore(s, ReadLock, [Enter] + [Unlock]);
  }

  /** One process less is busy with the free mutex. */
  lemma LeavesMutex(s: System, i: nat)
    requires Hoping(s, i) && s.k.current != i && s.pcs[s.k.current] != Outside
    ensures var c := s.k.current; var ts := WayOut(s.pcs[c]);
      && CanRun(s, ts) && Hoping(Final(s, ts), i)
      && Final(s, ts).k == Wakeup(s.k, MUTEX, true) && Final(s, ts).pcs == s.pcs[c := Outside]
  {
    assert Sized(s);
    hide Protocol, Wakeup, Final, CanRun;
    match s.pcs[s.k.current]
    case SawNoOwner => PassesAndLeaves(s);
    case PastCheck => EntersAndLeaves(s, Enter);
    case Waiting => EntersAndLeaves(s, Retry);
  }

  lemma WakeupDeadlines(k: Kernel)
    requires Inv(k)
    ensures Total(Deadlines(Wakeup(k, MUTEX, true).procs)) <= Total(Deadlines(k.procs))
  {
    var w := Wakeup(k, MUTEX, false);
    WakeupSwitches(k, MUTEX);
    forall j | 0 <= j < |k.procs| ensures w.procs[j].ttyBlock == k.procs[j].ttyBlock {
      WakeupMeans(k, MUTEX, j);
    }
    assert Deadlines(w.procs) == Deadlines(k.procs);
    ScheduleDeadlines(w);
  }

  lemma LeavingIsCloser(s: System, i: nat)
    requires Hoping(s, i) && s.k.current != i && s.pcs[s.k.current] != Outside
    ensures (LeavesMutex(s, i); var f := Final(s, WayOut(s.pcs[s.k.current]));
      Total(Deadlines(f.k.procs)) <= Total(Deadlines(s.k.procs)) && Total(Busy(f.pcs)) < Total(Busy(s.pcs)))
  {
    LeavesMutex(s, i);
    WakeupDeadlines(s.k);
    hide Protocol, Wakeup, Final, CanRun, Deadlines, Total;
    var c := s.k.current;
    var b := Busy(s.pcs[c := Outside]);
    assert b[c] < Busy(s.pcs)[c];
    TotalMonotone(b, Busy(s.pcs));
  }

  function Measure(s: System, i: nat): (nat, nat, nat, nat, nat, nat)
    requires Hoping(s, i)
  {
    HopingIsQueued(s, i);
    (Total(Deadlines(s.k.procs)), Total(Busy(s.pcs)), Place(s.k, i), Age(s.k), Passed(s.k, i), Total(Restless(s.k.procs, s.k.ticks)))
  }

  /** From every state in which the mutex is free and i waits for it, whatever the others are
      doing, there are steps at whose end i owns it. */
  lemma {:induction false} GetsIn(s: System, i: nat) returns (ts: seq<MStep>)
    requires Hoping(s, i)
    ensures CanRun(s, ts) && Owns(Final(s, ts), i)
    decreases Measure(s, i).0, Measure(s, i).1, Measure(s, i).2, Measure(s, i).3, Measure(s, i).4, Measure(s, i).5
  {
    var c := s.k.current;
    if c == i {
      FreeMutexIsTaken(s, Retry);
      OneMore(s, Retry, []);
      ts := [Retry] + [];
    } else {
      var first: seq<MStep>;
      if s.pcs[c] != Outside {
        LeavesMutex(s, i);
        LeavingIsCloser(s, i);
        first := WayOut(s.pcs[c]);
      } else if c != 0 {
        RetireCloser(s, i);
        OneMore(s, RETIRE, []);
        first := [RETIRE] + [];
      } else {
        TickCloser(s, i);
        OneMore(s, Other(TimerTick), []);
        first := [Other(TimerTick)] + [];
      }
      var rest := GetsIn(Final(s, first), i);
      Append(s, first, rest);
      ts := first + rest;
    }
  }

  /** Nobody waits in vain: when an owner unlocks, each process that waits, asleep or not, can
      be the next to own the mutex. */
  lemma WaiterCanGetIn(s: System, i: nat)
    requires Protocol(s) && CanStep(s, Unlock) && i < |s.pcs| && s.pcs[i] == Waiting
    ensures exists ts :: CanRun(s, [Unlock] + ts) && Owns(Final(s, [Unlock] + ts), i)
  {
    UnlockKeepsProtocol(s);
    var s1 := After(s, Unlock);
    var ts := GetsIn(s1, i);
    OneMore(s, Unlock, ts);
  }
}
