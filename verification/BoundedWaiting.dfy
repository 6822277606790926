/** How long a runnable process waits (sys/drivers/timer.c, sys/kernel/schedule.c). */
module BoundedWaiting {
  import opened SchedulerSpec

  /** Ring q is the highest one with a runnable process, and its head is running. */
  predicate Top(k: Kernel, q: nat) {
    && q < |k.rings| && k.rings[q] != [] && k.rings[q][0] == k.current
    && forall h | q < h < |k.rings| :: k.rings[h] == []
  }

  /** The next timer interrupt ends no tty wait and wakes nobody above priority q. */
  predicate Quiet(k: Kernel, q: nat) {
    forall i | 0 <= i < |k.procs| :: QuietProc(k.procs[i], q, (k.ticks + 1) % 0x1_0000_0000)
  }

  predicate QuietProc(p: Proc, q: nat, ticks: nat) {
    && !TtyExpired(p, ticks)
    && (Interrupted(Alarmed(p, ticks)) ==> p.priority <= q)
  }

  /** The ticks that the processes ahead of x in ring r may still use. */
  function WaitBefore(procs: seq<Proc>, r: seq<nat>, x: nat): int
    requires forall i | i in r :: i < |procs|
  {
    if r == [] || r[0] == x then 0
    else
      assert r[0] in r && forall i | i in r[1..] :: i in r;
      procs[r[0]].counter + 1 + WaitBefore(procs, r[1..], x)
  }

  function Wait(k: Kernel, q: nat, x: nat): int
    requires RingsOk(k) && q < |k.rings|
  {
    WaitBefore(k.procs, k.rings[q], x)
  }

  /** Arrivals at the tail do not lengthen the wait. */
  lemma {:induction false} WaitIgnoresTail(procs: seq<Proc>, r: seq<nat>, procs': seq<Proc>, r': seq<nat>, x: nat)
    requires r <= r' && x in r
    requires forall i | i in r :: i < |procs|
    requires forall i | i in r' :: i < |procs'|
    requires forall i | i in r :: i < |procs'| && procs'[i].counter == procs[i].counter
    ensures WaitBefore(procs', r', x) == WaitBefore(procs, r, x)
  {
    if r[0] != x {
      assert r[0] in r && x in r[1..] && r[1..] <= r'[1..];
      assert (forall i | i in r[1..] :: i in r) && (forall i | i in r'[1..] :: i in r');
      WaitIgnoresTail(procs, r[1..], procs', r'[1..], x);
    }
  }

  lemma {:induction false} WaitPositive(procs: seq<Proc>, r: seq<nat>, x: nat)
    requires forall i | i in r :: i < |procs| && procs[i].counter >= 0
    ensures WaitBefore(procs, r, x) >= 0
  {
    if r != [] && r[0] != x {
      assert r[0] in r && forall i | i in r[1..] :: i in r;
      WaitPositive(procs, r[1..], x);
    }
  }

  /** A quiet scan only appends to rings, and never to a ring above q. */
  lemma {:induction false} QuietScanAppends(k: Kernel, n: nat, q: nat)
    requires Shape(k) && RingsOk(k) && n <= |k.procs|
    requires forall i | 0 <= i < |k.procs| :: QuietProc(k.procs[i], q, k.ticks)
    ensures forall h | 0 <= h < |k.rings| :: k.rings[h] <= Scan(k, n).rings[h]
    ensures forall h | q < h < |k.rings| :: k.rings[h] == Scan(k, n).rings[h]
  {
    if n == 0 {
      assert Scan(k, 0) == k;
    } else {
      QuietScanAppends(k, n - 1, q);
      QuietScanNext(k, n - 1, q);
      hide Scan;
    }
  }

  lemma QuietScanNext(k: Kernel, n: nat, q: nat)
    requires Shape(k) && RingsOk(k) && n < |k.procs| && QuietProc(k.procs[n], q, k.ticks)
    ensures var s, s' := Scan(k, n), Scan(k, n + 1);
      && (forall h | 0 <= h < |k.rings| :: s.rings[h] <= s'.rings[h])
      && (forall h | q < h < |k.rings| :: s.rings[h] == s'.rings[h])
  {
    ScanProcs(k, n);
    QuietScanOne(Scan(k, n), n, q);
  }

  lemma QuietScanOne(k: Kernel, i: nat, q: nat)
    requires Shape(k) && RingsOk(k) && i < |k.procs| && QuietProc(k.procs[i], q, k.ticks)
    ensures forall h | 0 <= h < |k.rings| :: k.rings[h] <= ScanOne(k, i).rings[h]
    ensures forall h | q < h < |k.rings| :: k.rings[h] == ScanOne(k, i).rings[h]
  {
    var p := Alarmed(k.procs[i], k.ticks);
    if Interrupted(p) {
      assert !Queued(k.procs[i]) && i !in k.rings[p.priority];
    }
  }

  /** What one quiet tick does to ring q: the head either keeps its place with one tick less,
      or, having none left, goes to the tail; others may arrive behind. */
  lemma QuietTickRing(k: Kernel, q: nat)
    requires Inv(k) && Top(k, q) && Quiet(k, q)
    ensures var r, k' := k.rings[q], Tick(k);
      && (if k.procs[r[0]].counter == 0 then r[1..] + [r[0]] else r) <= k'.rings[q]
      && Top(k', q)
  {
    assert k.rings[q][0] in k.rings[q];
    var c := Charged(k);
    ChargedRing(k, q);
    forall i | 0 <= i < |c.procs| ensures QuietProc(c.procs[i], q, c.ticks) {
      assert QuietProc(k.procs[i], q, c.ticks);
    }
    QuietScanAppends(c, |c.procs|, q);
  }

  lemma ChargedRing(k: Kernel, q: nat)
    requires Inv(k) && Top(k, q)
    ensures Charged(k).rings == k.rings[q :=
      if Current(k).counter == 0 then k.rings[q][1..] + [k.rings[q][0]] else k.rings[q]]
  {
    var r := k.rings[q];
    assert r[0] in r;
    assert Unlinked(r, r[0]) == r[1..];
    assert IndexOf(r, r[0]) == 0;
  }

  lemma QuietTickCounters(k: Kernel, i: nat)
    requires Inv(k) && i < |k.procs|
    ensures Tick(k).procs[i].counter ==
      if i == k.current && k.procs[i].counter > 0 then k.procs[i].counter - 1 else k.procs[i].counter
  {
    ScheduleEffect(Charged(k), i);
  }

  lemma {:induction false} WaitAfterHead(procs: seq<Proc>, r: seq<nat>, procs': seq<Proc>, r': seq<nat>, x: nat)
    requires Distinct(r) && r != [] && x in r && x != r[0] && r[0] < |procs|
    requires forall i | i in r :: i < |procs| && procs[i].counter >= 0
    requires forall i | i in r' :: i < |procs'|
    requires (if procs[r[0]].counter == 0 then r[1..] + [r[0]] else r) <= r'
    requires forall i | i in r ::
      i < |procs'| && procs'[i].counter == if i == r[0] && procs[i].counter > 0 then procs[i].counter - 1 else procs[i].counter
    ensures x in r' && WaitBefore(procs', r', x) == WaitBefore(procs, r, x) - 1
  {
    assert x in r[1..] && r[0] in r;
    assert forall i | i in r[1..] :: i in r && i != r[0];
    if procs[r[0]].counter == 0 {
      assert r[1..] <= r';
      WaitIgnoresTail(procs, r[1..], procs', r', x);
    } else {
      assert r'[0] == r[0] && r[1..] <= r'[1..];
      assert forall i | i in r'[1..] :: i in r';
      WaitIgnoresTail(procs, r[1..], procs', r'[1..], x);
    }
  }

  /** Each quiet tick brings a waiting process of the top ring exactly one tick closer. */
  lemma TickShortensWait(k: Kernel, q: nat, x: nat)
    requires Inv(k) && Top(k, q) && Quiet(k, q) && x in k.rings[q] && x != k.current
    ensures Inv(Tick(k)) && Top(Tick(k), q)
    ensures x in Tick(k).rings[q] && Wait(Tick(k), q, x) == Wait(k, q, x) - 1
  {
    TickKeepsInv(k);
    QuietTickRing(k, q);
    var r := k.rings[q];
    forall i | i in r
      ensures i < |Tick(k).procs| && Tick(k).procs[i].counter ==
        if i == r[0] && k.procs[i].counter > 0 then k.procs[i].counter - 1 else k.procs[i].counter
    {
      QuietTickCounters(k, i);
    }
    WaitAfterHead(k.procs, r, Tick(k).procs, Tick(k).rings[q], x);
  }

  /** A step that leaves ring q alone except for arrivals at its tail. */
  predicate Undisturbed(k: Kernel, k': Kernel, q: nat) {
    && Inv(k) && Inv(k') && |k'.rings| == |k.rings| && Top(k', q) && q < |k.rings|
    && k.rings[q] <= k'.rings[q]
    && (forall i | i in k.rings[q] :: i < |k'.procs| && k'.procs[i].counter == k.procs[i].counter)
  }

  /** A run in which ring q stays on top: `ticks[j]` tells whether step j is a timer tick. */
  predicate Fair(ks: seq<Kernel>, ticks: seq<bool>, q: nat) {
    && |ks| == |ticks| + 1
    && Inv(ks[0]) && Top(ks[0], q)
    && forall j | 0 <= j < |ticks| ::
         if ticks[j] then Inv(ks[j]) && Top(ks[j], q) && Quiet(ks[j], q) && ks[j + 1] == Tick(ks[j])
         else Undisturbed(ks[j], ks[j + 1], q)
  }

  function TickCount(ticks: seq<bool>): nat {
    if ticks == [] then 0 else (if ticks[0] then 1 else 0) + TickCount(ticks[1..])
  }

  /** Bounded waiting: a process of the top ring runs within as many ticks as the processes
      ahead of it may use, one more for each of them. */
  lemma {:induction false} BoundedWait(ks: seq<Kernel>, ticks: seq<bool>, q: nat, x: nat)
    requires Fair(ks, ticks, q) && x in ks[0].rings[q]
    requires TickCount(ticks) >= Wait(ks[0], q, x)
    ensures exists j :: 0 <= j < |ks| && ks[j].current == x
    decreases |ticks|
  {
    var k := ks[0];
    if k.current == x {
      return;
    }
    WaitIsPositive(k, q, x);
    var ks', ticks' := ks[1..], ticks[1..];
    if ticks[0] {
      TickShortensWait(k, q, x);
    } else {
      WaitIgnoresTail(k.procs, k.rings[q], ks[1].procs, ks[1].rings[q], x);
      assert x in ks[1].rings[q];
    }
    FairRest(ks, ticks, q);
    BoundedWait(ks', ticks', q, x);
    var j :| 0 <= j < |ks'| && ks'[j].current == x;
    assert ks[j + 1].current == x;
  }

  lemma WaitIsPositive(k: Kernel, q: nat, x: nat)
    requires Inv(k) && Top(k, q) && x in k.rings[q] && x != k.current
    ensures Wait(k, q, x) >= 1
  {
    var r := k.rings[q];
    assert r[0] in r && forall i | i in r[1..] :: i in r;
    WaitPositive(k.procs, r[1..], x);
  }

  lemma FairRest(ks: seq<Kernel>, ticks: seq<bool>, q: nat)
    requires Fair(ks, ticks, q) && ticks != []
    requires Inv(ks[1]) && Top(ks[1], q)
    ensures Fair(ks[1..], ticks[1..], q)
  {
    forall j | 0 <= j < |ticks| - 1
      ensures if ticks[1..][j]
        then Inv(ks[1..][j]) && Top(ks[1..][j], q) && Quiet(ks[1..][j], q) && ks[1..][j + 1] == Tick(ks[1..][j])
        else Undisturbed(ks[1..][j], ks[1..][j + 1], q)
    {
      assert ks[1..][j] == ks[j + 1] && ks[1..][j + 1] == ks[j + 2] && ticks[1..][j] == ticks[j + 1];
    }
  }

  /** Once every counter of the top ring is used up, ticks are a strict round robin. */
  lemma RoundRobin(k: Kernel, q: nat)
    requires Inv(k) && Top(k, q) && Quiet(k, q)
    requires forall i | i in k.rings[q] :: i < |k.procs| && k.procs[i].counter == 0
    ensures var r := k.rings[q]; r[1..] + [r[0]] <= Tick(k).rings[q]
    ensures forall i | i in k.rings[q] :: i < |k.procs| && Tick(k).procs[i].counter == 0
  {
    assert k.rings[q][0] in k.rings[q];
    QuietTickRing(k, q);
    forall i | i in k.rings[q] ensures i < |k.procs| && Tick(k).procs[i].counter == 0 {
      QuietTickCounters(k, i);
    }
  }

  /** The child of a fork queues up behind all that were there, if no tty deadline is overdue. */
  lemma ChildQueuesLast(k: Kernel, h: nat)
    requires Inv(k) && FreeSlot(k.procs) < |k.procs| && h < |k.rings|
    requires forall i | 0 <= i < |k.procs| :: !TtyExpired(k.procs[i], k.ticks)
    ensures var p := k.procs[k.current];
      (if h == (if p.priority == 0 then 1 else p.priority) then k.rings[h] + [FreeSlot(k.procs)] else k.rings[h])
      <= Fork(k).rings[h]
  {
    var c := FreeSlot(k.procs);
    var child := ChildOf(Current(k));
    var k1 := Update(k, c, child);
    UpdateKeepsRings(k, c, child);
    assert c !in k.rings[child.priority];
    forall i | 0 <= i < |k1.procs| ensures QuietProc(k1.procs[i], |k.rings|, k1.ticks) {
      assert i != c ==> !TtyExpired(k.procs[i], k.ticks);
      assert !TtyExpired(Current(k), k.ticks);
    }
    QuietScanAppends(k1, |k1.procs|, |k.rings|);
  }

  lemma {:induction false} WakeScanAbove(k: Kernel, n: nat, addr: nat, q: nat)
    requires Shape(k) && n <= |k.procs|
    requires forall i | 0 <= i < |k.procs| && WakesOn(k.procs[i], addr) :: k.procs[i].priority <= q
    ensures forall h | q < h < |k.rings| :: k.rings[h] == WakeScan(k, n, addr).rings[h]
  {
    if n > 0 {
      WakeScanAbove(k, n - 1, addr, q);
      WakeScanProcs(k, n - 1, addr);
    }
  }

  /** Waking processes of the same or a lower priority disturbs nobody in the top ring. */
  lemma WakingIsUndisturbed(k: Kernel, addr: nat, q: nat)
    requires Inv(k) && Top(k, q)
    requires forall i | 0 <= i < |k.procs| && WakesOn(k.procs[i], addr) :: k.procs[i].priority <= q
    ensures Undisturbed(k, Wakeup(k, addr, false), q)
  {
    WakeupKeepsInv(k, addr, false);
    WakeScanAppends(k, |k.procs|, addr);
    WakeScanAbove(k, |k.procs|, addr, q);
    WakeScanProcs(k, |k.procs|, addr);
  }
}
