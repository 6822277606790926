/** mutex_lock and mutex_unlock as a protocol over the scheduler (sys/kernel/mutex.c).

    A step is what the current process does without being interrupted.  mutex_lock disables
    interrupts only after its consistency check, so the two reads of that check are steps of
    their own; from there to the return, or to the sleep, it is one step. */
module Mutex {
  import opened SchedulerSpec
  import BoundedWaiting

  /** Where a process is: outside mutex_lock, between the two reads of the check, past the
      check, or asleep in the waiting loop. */
  datatype Pc = Outside | SawNoOwner | PastCheck | Waiting

  datatype Panic = NoPanic | CorruptMutex | SleepOnFirst

  /** `depth` counts a process's returned but not yet unlocked calls of mutex_lock;
      `relocked` tells whether an owner has ever locked again. owner -1 is NULL. */
  datatype System = System(k: Kernel, locked: bool, owner: int, pcs: seq<Pc>, depth: seq<nat>,
                           relocked: bool, panic: Panic)

  /** The address of the mutex, as a wait channel. */
  const MUTEX := 1

  datatype MStep = ReadOwner | ReadLock | Enter | Retry | Unlock | Other(ev: Event)

  predicate Sized(s: System) {
    && Inv(s.k) && |s.pcs| == |s.depth| == |s.k.procs|
    && -1 <= s.owner < |s.k.procs|
  }

  /** The current process can take step t. Only owners unlock, and nobody exits as owner. */
  predicate CanStep(s: System, t: MStep) {
    && Sized(s)
    && var c := s.k.current;
    && s.panic == NoPanic
    && match t
       case ReadOwner => s.pcs[c] == Outside
       case ReadLock => s.pcs[c] == SawNoOwner
       case Enter => s.pcs[c] == PastCheck
       case Retry => s.pcs[c] == Waiting
       case Unlock => s.pcs[c] == Outside && s.owner == c
       case Other(ev) =>
         && Enabled(s.k, ev)
         && (ev.Forks? ==> s.pcs[c] == Outside)
         && (ev.Blocks? ==> s.pcs[c] == Outside)
         && (ev.Blocks? && (ev.state == Exited || ev.state == Zombie) ==> s.depth[c] == 0 && s.owner != c)
  }

  function Acquire(s: System): System
    requires Sized(s)
  {
    var c := s.k.current;
    s.(locked := true, owner := c, pcs := s.pcs[c := Outside], depth := s.depth[c := s.depth[c] + 1],
       relocked := s.relocked || s.owner == c)
  }

  /** sleep(m, PROC_SLEEP_INTERRUPTIBLE) in the waiting loop. */
  function SleepOnMutex(s: System): System
    requires Sized(s)
  {
    var c := s.k.current;
    if c == 0 then s.(panic := SleepOnFirst)
    else s.(k := Step(s.k, Blocks(SleepInterruptible, MUTEX)), pcs := s.pcs[c := Waiting])
  }

  function After(s: System, t: MStep): System
    requires CanStep(s, t)
  {
    var c := s.k.current;
    match t
    case ReadOwner => s.(pcs := s.pcs[c := if s.owner < 0 then SawNoOwner else PastCheck])
    case ReadLock => if s.locked then s.(panic := CorruptMutex) else s.(pcs := s.pcs[c := PastCheck])
    case Enter => if s.owner == c || !s.locked then Acquire(s) else SleepOnMutex(s)
    case Retry => if !s.locked then Acquire(s) else SleepOnMutex(s)
    case Unlock =>
      s.(locked := false, owner := -1, depth := s.depth[c := if s.depth[c] > 0 then s.depth[c] - 1 else 0],
         k := Wakeup(s.k, MUTEX, true))
    case Other(ev) => s.(k := Step(s.k, ev))
  }

  // ---------------------------------------------------------------------------------
  // The protocol invariant
  // ---------------------------------------------------------------------------------

  /** A process in the waiting loop is runnable, or asleep on the mutex while it is locked. */
  predicate WaiterOk(p: Proc, locked: bool) {
    Queued(p) || (locked && p.state == SleepInterruptible && p.sleepingOn == MUTEX)
  }

  predicate Protocol(s: System) {
    && Sized(s)
    && (s.locked <==> s.owner >= 0)
    && (forall i | 0 <= i < |s.pcs| && s.pcs[i] == Waiting :: WaiterOk(s.k.procs[i], s.locked))
    && (s.owner >= 0 ==> s.depth[s.owner] > 0 && (s.pcs[s.owner] == Outside || s.pcs[s.owner] == PastCheck))
    && (!s.relocked ==> forall i | 0 <= i < |s.depth| :: s.depth[i] == if s.owner == i then 1 else 0)
  }

  /** mutex_init, before any process has called mutex_lock. */
  function Unlocked(k: Kernel): System {
    System(k, false, -1, seq(|k.procs|, _ => Outside), seq(|k.procs|, _ => 0), false, NoPanic)
  }

  /** A new mutex satisfies the protocol, whatever the scheduler is doing. */
  lemma InitEstablishesProtocol(k: Kernel)
    requires Inv(k)
    ensures Protocol(Unlocked(k))
  {
  }

  /** A process that was runnable still is; an interruptible sleeper still sleeps on the same
      channel, or is runnable. */
  predicate Undisturbed(p: Proc, p': Proc) {
    && (Queued(p) ==> Queued(p'))
    && (p.state == SleepInterruptible ==>
          Queued(p') || (p'.state == SleepInterruptible && p'.sleepingOn == p.sleepingOn))
  }

  lemma TickEffect(k: Kernel, i: nat)
    requires Inv(k) && i < |k.procs|
    ensures Undisturbed(k.procs[i], Tick(k).procs[i])
  {
    ScheduleEffect(Charged(k), i);
  }

  lemma BlockEffect(k: Kernel, p: Proc, i: nat)
    requires Inv(k) && i < |k.procs| && p.priority == Current(k).priority && i != k.current
    ensures Undisturbed(k.procs[i], Block(k, p).procs[i])
  {
    UpdateKeepsRings(k, k.current, p);
    ScheduleEffect(Update(k, k.current, p), i);
  }

  lemma ForkEffect(k: Kernel, i: nat)
    requires Inv(k) && i < |k.procs|
    ensures Undisturbed(k.procs[i], Fork(k).procs[i])
  {
    var c := FreeSlot(k.procs);
    if c < |k.procs| {
      UpdateKeepsRings(k, c, ChildOf(Current(k)));
      ScheduleEffect(Update(k, c, ChildOf(Current(k))), i);
    }
  }

  /** What any scheduler step leaves of a process other than one that blocks. */
  lemma BystanderEffect(k: Kernel, ev: Event, i: nat)
    requires Inv(k) && Enabled(k, ev) && i < |k.procs|
    requires ev.Blocks? ==> i != k.current
    ensures Undisturbed(k.procs[i], Step(k, ev).procs[i])
  {
    match ev
    case TimerTick => TickEffect(k, i);
    case Blocks(st, addr) => BlockEffect(k, Current(k).(state := st, sleepingOn := addr), i);
    case Wakes(addr, switch) => WakeupEffect(k, addr, switch, i);
    case Forks => ForkEffect(k, i);
    case _ =>
  }

  lemma WakeupEffect(k: Kernel, addr: nat, switch: bool, i: nat)
    requires Inv(k) && i < |k.procs|
    ensures Undisturbed(k.procs[i], Wakeup(k, addr, switch).procs[i])
    ensures WakesOn(k.procs[i], addr) ==> Queued(Wakeup(k, addr, switch).procs[i])
  {
    WakeScanProcs(k, |k.procs|, addr);
    WakeScanKeepsRings(k, |k.procs|, addr);
    ScheduleEffect(WakeScan(k, |k.procs|, addr), i);
  }

  lemma BlockerEffect(k: Kernel, addr: nat)
    requires Inv(k) && k.current != 0
    ensures var p := Step(k, Blocks(SleepInterruptible, addr)).procs[k.current];
      Queued(p) || (p.state == SleepInterruptible && p.sleepingOn == addr)
  {
    var p := Current(k).(state := SleepInterruptible, sleepingOn := addr);
    UpdateKeepsRings(k, k.current, p);
    ScheduleEffect(Update(k, k.current, p), k.current);
  }

  lemma OtherKeepsProtocol(s: System, ev: Event)
    requires Protocol(s) && CanStep(s, Other(ev))
    ensures Protocol(After(s, Other(ev)))
  {
    StepKeepsInv(s.k, ev);
    forall i | 0 <= i < |s.pcs| && s.pcs[i] == Waiting ensures WaiterOk(Step(s.k, ev).procs[i], s.locked) {
      BystanderEffect(s.k, ev, i);
    }
  }

  lemma SleepKeepsProtocol(s: System)
    requires Protocol(s) && s.locked && s.owner != s.k.current
    ensures Protocol(SleepOnMutex(s))
  {
    if s.k.current != 0 {
      StepKeepsInv(s.k, Blocks(SleepInterruptible, MUTEX));
      SleeperStates(s);
    }
  }

  lemma SleeperStates(s: System)
    requires Protocol(s) && s.locked && s.k.current != 0
    ensures var k' := Step(s.k, Blocks(SleepInterruptible, MUTEX));
      && WaiterOk(k'.procs[s.k.current], true)
      && forall i | 0 <= i < |s.pcs| && s.pcs[i] == Waiting :: WaiterOk(k'.procs[i], true)
  {
    BlockerEffect(s.k, MUTEX);
    forall i | 0 <= i < |s.pcs| && s.pcs[i] == Waiting && i != s.k.current
      ensures WaiterOk(Step(s.k, Blocks(SleepInterruptible, MUTEX)).procs[i], true)
    {
      BystanderEffect(s.k, Blocks(SleepInterruptible, MUTEX), i);
    }
  }

  /** Unlocking wakes every process that waits: nobody is left asleep on a free mutex. */
  lemma UnlockKeepsProtocol(s: System)
    requires Protocol(s) && CanStep(s, Unlock)
    ensures Protocol(After(s, Unlock))
  {
    WakeupKeepsInv(s.k, MUTEX, true);
    forall i | 0 <= i < |s.pcs| && s.pcs[i] == Waiting
      ensures Queued(Wakeup(s.k, MUTEX, true).procs[i])
    {
      WakeupEffect(s.k, MUTEX, true, i);
    }
  }

  lemma AcquireKeepsProtocol(s: System)
    requires Protocol(s) && (s.owner == s.k.current || !s.locked)
    ensures Protocol(Acquire(s))
  {
  }

  /** Every step keeps the protocol. */
  lemma StepKeepsProtocol(s: System, t: MStep)
    requires Protocol(s) && CanStep(s, t)
    ensures Protocol(After(s, t))
  {
    var c := s.k.current;
    match t
    case Enter => if s.owner == c || !s.locked { AcquireKeepsProtocol(s); } else { SleepKeepsProtocol(s); }
    case Retry => if !s.locked { AcquireKeepsProtocol(s); } else { SleepKeepsProtocol(s); }
    case Unlock => UnlockKeepsProtocol(s);
    case Other(ev) => OtherKeepsProtocol(s, ev);
    case _ =>
  }

  // ---------------------------------------------------------------------------------
  // Runs
  // ---------------------------------------------------------------------------------

  predicate CanRun(s: System, ts: seq<MStep>)
    decreases |ts|
  {
    ts == [] || (CanStep(s, ts[0]) && CanRun(After(s, ts[0]), ts[1..]))
  }

  function Final(s: System, ts: seq<MStep>): System
    requires CanRun(s, ts)
    decreases |ts|
  {
    if ts == [] then s else Final(After(s, ts[0]), ts[1..])
  }

  lemma {:induction false} RunKeepsProtocol(s: System, ts: seq<MStep>)
    requires Protocol(s) && CanRun(s, ts)
    ensures Protocol(Final(s, ts))
    decreases |ts|
  {
    if ts != [] {
      StepKeepsProtocol(s, ts[0]);
      RunKeepsProtocol(After(s, ts[0]), ts[1..]);
    }
  }

  /** In every run in which no owner locks again, at most one process is between a returned
      mutex_lock and its mutex_unlock, and that one is the owner. */
  lemma MutualExclusion(s: System, ts: seq<MStep>, i: nat, j: nat)
    requires Protocol(s) && CanRun(s, ts) && i < |Final(s, ts).depth| && j < |Final(s, ts).depth|
    ensures var f := Final(s, ts);
      !f.relocked && f.depth[i] > 0 && f.depth[j] > 0 ==> i == j && f.owner == i && f.depth[i] == 1
  {
    RunKeepsProtocol(s, ts);
  }

  /** No wakeup is lost: whenever the mutex is free, every process in the waiting loop of
      mutex_lock is in the queue of its priority. */
  lemma NoLostWakeup(s: System, ts: seq<MStep>, i: nat)
    requires Protocol(s) && CanRun(s, ts) && i < |Final(s, ts).pcs|
    ensures Protocol(Final(s, ts))
    ensures var f := Final(s, ts);
      !f.locked && f.pcs[i] == Waiting ==> Queued(f.k.procs[i]) && i in f.k.rings[f.k.procs[i].priority]
  {
    RunKeepsProtocol(s, ts);
  }

  /** The mutex is never corrupt, so the panic of mutex_lock is always a false alarm: it
      happens exactly when another process took the mutex between the two reads. */
  lemma PanicIsFalseAlarm(s: System, ts: seq<MStep>, t: MStep)
    requires Protocol(s) && CanRun(s, ts) && CanStep(Final(s, ts), t)
    ensures var f := Final(s, ts);
      && (f.locked <==> f.owner >= 0)
      && (After(f, t).panic == CorruptMutex <==> t == ReadLock && f.owner >= 0 && f.owner != f.k.current)
  {
    RunKeepsProtocol(s, ts);
  }

  /** A recursive lock is not counted: the first unlock frees the mutex although its owner
      has not left the outer section. Exclusion needs the caller to know it is not the owner. */
  lemma RelockLosesExclusion(s: System)
    requires Protocol(s) && s.panic == NoPanic && s.owner == s.k.current && s.pcs[s.k.current] == Outside
    ensures var ts := [ReadOwner, Enter, Unlock]; var c := s.k.current;
      && CanRun(s, ts)
      && Final(s, ts).depth[c] > 0 && !Final(s, ts).locked && Final(s, ts).owner == -1
      && Final(s, ts).relocked
  {
    var s1 := After(s, ReadOwner);
    var s2 := After(s1, Enter);
    OneMore(s2, Unlock, []);
    OneMore(s1, Enter, [Unlock]);
    OneMore(s, ReadOwner, [Enter, Unlock]);
  }

  // ---------------------------------------------------------------------------------
  // The false alarm does happen
  // ---------------------------------------------------------------------------------

  /** Nothing is due, and nobody has ticks left. */
  predicate Calm(k: Kernel) {
    forall i | 0 <= i < |k.procs| :: CalmProc(k.procs[i])
  }

  predicate CalmProc(p: Proc) {
    p.alarm == 0 && p.ttyBlock == 0 && p.sigpending == {} && p.counter == 0
  }

  /** In a calm kernel a tick passes the processor from the head of the top ring to the next. */
  lemma CalmTick(k: Kernel, q: nat)
    requires Inv(k) && BoundedWaiting.Top(k, q) && Calm(k) && |k.rings[q]| >= 2
    ensures Inv(Tick(k)) && BoundedWaiting.Top(Tick(k), q) && Calm(Tick(k))
    ensures k.rings[q][1..] + [k.rings[q][0]] <= Tick(k).rings[q]
    ensures Tick(k).current == k.rings[q][1]
  {
    TickKeepsInv(k);
    assert k.rings[q][0] in k.rings[q];
    BoundedWaiting.QuietTickRing(k, q);
    forall i | 0 <= i < |k.procs| ensures CalmProc(Tick(k).procs[i]) {
      ScheduleEffect(Charged(k), i);
    }
  }

  /** The system once the current process has locked a free mutex. */
  function Taken(s: System): System
    requires Sized(s)
  {
    var c := s.k.current;
    s.(locked := true, owner := c, depth := s.depth[c := s.depth[c] + 1])
  }

  /** mutex_lock on a free mutex, without interruption, followed by the steps ts. */
  lemma LockFree(s: System, ts: seq<MStep>)
    requires Sized(s) && s.panic == NoPanic && !s.locked && s.owner == -1 && s.pcs[s.k.current] == Outside
    requires CanRun(Taken(s), ts)
    ensures CanRun(s, [ReadOwner] + ([ReadLock] + ([Enter] + ts)))
    ensures Final(s, [ReadOwner] + ([ReadLock] + ([Enter] + ts))) == Final(Taken(s), ts)
  {
    var s1 := After(s, ReadOwner);
    var s2 := After(s1, ReadLock);
    assert s2.pcs[s.k.current := Outside] == s.pcs;
    assert After(s2, Enter) == Taken(s);
    OneMore(s2, Enter, ts);
    OneMore(s1, ReadLock, [Enter] + ts);
    OneMore(s, ReadOwner, [ReadLock] + ([Enter] + ts));
  }

  /** The process that was interrupted after its first read gets the processor back. */
  lemma AlarmRings(s: System, q: nat)
    requires Sized(s) && s.panic == NoPanic && s.locked
    requires BoundedWaiting.Top(s.k, q) && Calm(s.k) && |s.k.rings[q]| >= 2
    requires var a := s.k.rings[q][1]; a < |s.pcs| && s.pcs[a] == SawNoOwner
    ensures CanRun(s, [Other(TimerTick), ReadLock])
    ensures Final(s, [Other(TimerTick), ReadLock]).panic == CorruptMutex
  {
    CalmTick(s.k, q);
    var s1 := After(s, Other(TimerTick));
    OneMore(s1, ReadLock, []);
    OneMore(s, Other(TimerTick), [ReadLock]);
  }

  const REST := [ReadOwner] + ([ReadLock] + ([Enter] + [Other(TimerTick), ReadLock]))

  /** The second process takes the free mutex, then the first runs again. */
  lemma SecondTakes(s: System, q: nat)
    requires Sized(s) && s.panic == NoPanic && !s.locked && s.owner == -1 && s.pcs[s.k.current] == Outside
    requires BoundedWaiting.Top(s.k, q) && Calm(s.k) && |s.k.rings[q]| >= 2
    requires var a := s.k.rings[q][1]; a < |s.pcs| && s.pcs[a] == SawNoOwner
    ensures CanRun(s, REST) && Final(s, REST).panic == CorruptMutex
  {
    AlarmRings(Taken(s), q);
    LockFree(s, [Other(TimerTick), ReadLock]);
  }

  /** The first process is interrupted between its two reads. */
  lemma FirstInterrupted(s: System, q: nat)
    requires Protocol(s) && !s.locked && s.panic == NoPanic && s.pcs[s.k.current] == Outside
    requires BoundedWaiting.Top(s.k, q) && Calm(s.k) && |s.k.rings[q]| == 2
    ensures CanRun(s, [ReadOwner, Other(TimerTick)])
    ensures var s2 := Final(s, [ReadOwner, Other(TimerTick)]);
      && s2 == s.(k := Tick(s.k), pcs := s.pcs[s.k.current := SawNoOwner]) && Sized(s2)
      && BoundedWaiting.Top(s2.k, q) && Calm(s2.k) && s2.k.current == s.k.rings[q][1]
      && |s2.k.rings[q]| >= 2 && s2.k.rings[q][1] == s.k.current
  {
    CalmTick(s.k, q);
    SecondInRing(s.k.rings[q], Tick(s.k).rings[q]);
    var s1 := After(s, ReadOwner);
    OneMore(s1, Other(TimerTick), []);
    OneMore(s, ReadOwner, [Other(TimerTick)]);
  }

  /** Two processes take turns at the head of the top ring: the first is interrupted between
      its two reads, the second takes the free mutex, and the first panics. */
  lemma FalseAlarmHappens(s: System, q: nat)
    requires Protocol(s) && !s.locked && s.panic == NoPanic
    requires BoundedWaiting.Top(s.k, q) && Calm(s.k) && |s.k.rings[q]| == 2
    requires forall i | 0 <= i < |s.pcs| :: s.pcs[i] == Outside
    ensures exists ts :: CanRun(s, ts) && Final(s, ts).panic == CorruptMutex
  {
    var a, b := s.k.rings[q][0], s.k.rings[q][1];
    assert a in s.k.rings[q] && b in s.k.rings[q] && a != b;
    var ts := [ReadOwner, Other(TimerTick)];
    FirstInterrupted(s, q);
    SecondTakes(Final(s, ts), q);
    Append(s, ts, REST);
  }

  lemma {:induction false} Append(s: System, ts: seq<MStep>, us: seq<MStep>)
    requires CanRun(s, ts) && CanRun(Final(s, ts), us)
    ensures CanRun(s, ts + us) && Final(s, ts + us) == Final(Final(s, ts), us)
    decreases |ts|
  {
    if ts == [] {
      assert ts + us == us;
    } else {
      assert (ts + us)[1..] == ts[1..] + us;
      Append(After(s, ts[0]), ts[1..], us);
    }
  }

  /** Process 0 idles; two user processes share a ring and have no ticks left. */
  function TwoUsers(): Kernel {
    Kernel([Proc(Runnable, 0, 0, 0, {}, 0, 0), Proc(Running, 1, 0, 0, {}, 0, 0), Proc(Runnable, 1, 0, 0, {}, 0, 0)],
           [[0], [1, 2]], 1, 0)
  }

  /** Starting from a new mutex and no more than two users of it. */
  lemma FalseAlarmFromStart()
    ensures Inv(TwoUsers()) && Protocol(Unlocked(TwoUsers()))
    ensures exists ts :: CanRun(Unlocked(TwoUsers()), ts) && Final(Unlocked(TwoUsers()), ts).panic == CorruptMutex
  {
    var k := TwoUsers();
    assert k.rings[0] == [0] && k.rings[1] == [1, 2];
    assert 0 in k.rings[0] && 1 in k.rings[1] && k.rings[1][1] == 2;
    InitEstablishesProtocol(k);
    FalseAlarmHappens(Unlocked(k), 1);
  }

  // ---------------------------------------------------------------------------------
  // Two processes inside
  // ---------------------------------------------------------------------------------

  /** Between a returned mutex_lock and its mutex_unlock. */
  predicate Inside(s: System, i: nat) {
    i < |s.depth| && s.depth[i] > 0
  }

  const RELOCK := [ReadOwner] + ([Enter] + [Unlock])

  /** The system once an owner has locked again and unlocked once. */
  function Relocked(s: System): System {
    s.(locked := false, owner := -1, relocked := true)
  }

  lemma RelockFrees(s: System)
    requires Sized(s) && s.panic == NoPanic && s.owner == s.k.current && s.pcs[s.k.current] == Outside
    requires s.depth[s.k.current] == 1 && forall i | 0 <= i < |s.k.procs| :: !WakesOn(s.k.procs[i], MUTEX)
    ensures CanRun(s, RELOCK) && Final(s, RELOCK) == Relocked(s)
  {
    var c := s.k.current;
    var s1 := After(s, ReadOwner);
    var s2 := After(s1, Enter);
    assert s2 == s.(locked := true, depth := s.depth[c := 2], relocked := true) by {
      assert s1.pcs[c := Outside] == s.pcs;
    }
    NobodyWakes(s.k, |s.k.procs|, MUTEX);
    assert s2.depth[c := 1] == s.depth;
    assert After(s2, Unlock) == Relocked(s);
    OneMore(s2, Unlock, []);
    OneMore(s1, Enter, [Unlock]);
    OneMore(s, ReadOwner, [Enter] + [Unlock]);
  }

  const LOCK := [ReadOwner] + ([ReadLock] + ([Enter] + []))

  lemma LockOnce(s: System)
    requires Sized(s) && s.panic == NoPanic && !s.locked && s.owner == -1 && s.pcs[s.k.current] == Outside
    ensures CanRun(s, LOCK) && Final(s, LOCK) == Taken(s)
  {
    LockFree(s, []);
  }

  /** A process locks, locks again and unlocks once; it is still inside its outer section when
      the next process of its ring locks the mutex and is inside, too. */
  lemma RelockLetsSecondIn(s: System, q: nat)
    requires Protocol(s) && !s.locked && !s.relocked && s.panic == NoPanic
    requires BoundedWaiting.Top(s.k, q) && Calm(s.k) && |s.k.rings[q]| >= 2
    requires forall i | 0 <= i < |s.pcs| :: s.pcs[i] == Outside
    requires forall i | 0 <= i < |s.k.procs| :: !WakesOn(s.k.procs[i], MUTEX)
    ensures var ts := LOCK + (RELOCK + ([Other(TimerTick)] + LOCK)); var a, b := s.k.rings[q][0], s.k.rings[q][1];
      a != b && CanRun(s, ts) && Inside(Final(s, ts), a) && Inside(Final(s, ts), b) && Final(s, ts).owner == b
  {
    var a, b := s.k.rings[q][0], s.k.rings[q][1];
    assert a in s.k.rings[q] && b in s.k.rings[q] && a != b;
    LockOnce(s);
    var s1 := Taken(s);
    RelockFrees(s1);
    var s2 := Relocked(s1);
    CalmTick(s.k, q);
    var s3 := After(s2, Other(TimerTick));
    LockOnce(s3);
    OneMore(s2, Other(TimerTick), LOCK);
    Append(s1, RELOCK, [Other(TimerTick)] + LOCK);
    Append(s, LOCK, RELOCK + ([Other(TimerTick)] + LOCK));
  }

  /** Starting from a new mutex and two users of it. */
  lemma RelockFromStart()
    ensures Protocol(Unlocked(TwoUsers()))
    ensures exists ts ::
      && CanRun(Unlocked(TwoUsers()), ts)
      && Inside(Final(Unlocked(TwoUsers()), ts), 1) && Inside(Final(Unlocked(TwoUsers()), ts), 2)
  {
    var k := TwoUsers();
    assert k.rings[0] == [0] && k.rings[1] == [1, 2];
    assert 0 in k.rings[0] && 1 in k.rings[1] && k.rings[1][1] == 2;
    InitEstablishesProtocol(k);
    RelockLetsSecondIn(Unlocked(k), 1);
  }

  lemma SecondInRing(r: seq<nat>, r': seq<nat>)
    requires |r| >= 2 && r[1..] + [r[0]] <= r'
    ensures |r'| >= 2 && (|r| == 2 ==> r'[1] == r[0])
  {
    assert r'[|r| - 1] == (r[1..] + [r[0]])[|r| - 1];
  }

  lemma OneMore(s: System, t: MStep, ts: seq<MStep>)
    requires CanStep(s, t) && CanRun(After(s, t), ts)
    ensures CanRun(s, [t] + ts) && Final(s, [t] + ts) == Final(After(s, t), ts)
  {
    assert ([t] + ts)[1..] == ts;
  }
}
