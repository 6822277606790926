/** The scheduler as the kernel runs it, on linked process structures
    (sys/kernel/schedule.c, sys/drivers/timer.c, sys/kernel/proc.c). */
module Scheduler {
  import opened SchedulerSpec

  // ---------------------------------------------------------------------------------
  // Rings as links
  // ---------------------------------------------------------------------------------

  /** queue_next and queue_prev of every slot, and process_queues; -1 is NULL. */
  datatype Links = Links(next: seq<int>, prev: seq<int>, heads: seq<int>)

  function Succ(n: nat, j: nat): nat {
    if j + 1 == n then 0 else j + 1
  }

  /** The links of the slots of r form a circle, in the order of r. */
  predicate RingLinked(l: Links, r: seq<nat>) {
    forall j | 0 <= j < |r| :: LinkedAt(l, r, j)
  }

  predicate LinkedAt(l: Links, r: seq<nat>, j: nat)
    requires j < |r|
  {
    && r[j] < |l.next| && r[Succ(|r|, j)] < |l.prev|
    && l.next[r[j]] == r[Succ(|r|, j)]
    && l.prev[r[Succ(|r|, j)]] == r[j]
  }

  predicate InSomeRing(rings: seq<seq<nat>>, i: nat) {
    exists q :: 0 <= q < |rings| && i in rings[q]
  }

  /** Every queue is a well-formed circular doubly linked list, and the links of a process
      outside all queues are NULL. */
  predicate LinksOk(l: Links, rings: seq<seq<nat>>, n: nat) {
    && |l.next| == n && |l.prev| == n && |l.heads| == |rings|
    && (forall q | 0 <= q < |rings| ::
          l.heads[q] == if rings[q] == [] then -1 else rings[q][0])
    && (forall q | 0 <= q < |rings| :: RingLinked(l, rings[q]))
    && (forall i: nat | i < n && !InSomeRing(rings, i) :: l.next[i] == -1 && l.prev[i] == -1)
  }

  /** No slot is in two rings, or twice in one. */
  predicate RingsApart(rings: seq<seq<nat>>, n: nat) {
    && (forall q, x: nat {:trigger x in rings[q]} | 0 <= q < |rings| && x in rings[q] :: x < n)
    && (forall q | 0 <= q < |rings| :: Distinct(rings[q]))
    && (forall q, q', x: nat {:trigger x in rings[q], x in rings[q']} |
          0 <= q < |rings| && 0 <= q' < |rings| && x in rings[q] && x in rings[q'] :: q == q')
  }

  /** Changing ring q by one slot i, touching only links of that ring, keeps all the others. */
  lemma QueueChanged(l: Links, l': Links, rings: seq<seq<nat>>, n: nat, q: nat, i: nat, r': seq<nat>)
    requires LinksOk(l, rings, n) && RingsApart(rings, n) && q < |rings| && i < n
    requires i in rings[q] || !InSomeRing(rings, i)
    requires forall x: nat | x != i :: x in r' <==> x in rings[q]
    requires |l'.next| == n && |l'.prev| == n
    requires l'.heads == l.heads[q := if r' == [] then -1 else r'[0]]
    requires forall x: nat | x < n && x !in rings[q] && x != i :: l'.next[x] == l.next[x] && l'.prev[x] == l.prev[x]
    requires RingLinked(l', r')
    requires i !in r' ==> l'.next[i] == -1 && l'.prev[i] == -1
    ensures LinksOk(l', rings[q := r'], n)
  {
    var rings' := rings[q := r'];
    forall h | 0 <= h < |rings'| && h != q ensures RingLinked(l', rings'[h]) {
      assert forall x | x in rings[h] :: x !in rings[q] && x != i;
      OtherRing(l, l', rings[h]);
    }
    forall x: nat | x < n && !InSomeRing(rings', x) ensures l'.next[x] == -1 && l'.prev[x] == -1 {
      assert x !in rings'[q];
      if x != i {
        forall h | 0 <= h < |rings| ensures x !in rings[h] {
          assert x !in rings'[h];
        }
        assert !InSomeRing(rings, x);
      }
    }
  }

  /** A ring none of whose slots is touched stays linked. */
  lemma OtherRing(l: Links, l': Links, r: seq<nat>)
    requires RingLinked(l, r) && |l'.next| == |l.next| && |l'.prev| == |l.prev|
    requires forall x | x in r :: x < |l.next| && x < |l.prev| && l'.next[x] == l.next[x] && l'.prev[x] == l.prev[x]
    ensures RingLinked(l', r)
  {
    forall j | 0 <= j < |r| ensures LinkedAt(l', r, j) {
      assert LinkedAt(l, r, j) && r[j] in r && r[Succ(|r|, j)] in r;
    }
  }

  /** The links once i follows `tail` and precedes `head`. */
  function Appended(l: Links, tail: nat, head: nat, i: nat): Links
    requires tail < |l.next| == |l.prev| && head < |l.prev| && i < |l.next|
  {
    l.(next := l.next[tail := i][i := head], prev := l.prev[i := tail][head := i])
  }

  lemma RingAppend(l: Links, r: seq<nat>, i: nat)
    requires RingLinked(l, r) && Distinct(r) && r != [] && i !in r
    requires |l.next| == |l.prev| && i < |l.next| && forall x | x in r :: x < |l.next|
    ensures r[0] in r && r[|r| - 1] in r
    ensures RingLinked(Appended(l, r[|r| - 1], r[0], i), r + [i])
  {
    assert r[0] in r && r[|r| - 1] in r;
    var l', r' := Appended(l, r[|r| - 1], r[0], i), r + [i];
    forall j | 0 <= j < |r'| ensures LinkedAt(l', r', j) {
      if j + 1 < |r| { assert LinkedAt(l, r, j) && r[j] in r && r[j + 1] in r; }
    }
  }

  lemma AppendKeepsLinks(l: Links, rings: seq<seq<nat>>, n: nat, q: nat, i: nat)
    requires LinksOk(l, rings, n) && RingsApart(rings, n)
    requires q < |rings| && rings[q] != [] && i < n && !InSomeRing(rings, i)
    ensures var r := rings[q];
      && r[0] < n && r[|r| - 1] < n
      && LinksOk(Appended(l, r[|r| - 1], r[0], i), rings[q := r + [i]], n)
  {
    var r := rings[q];
    assert r[0] in r && r[|r| - 1] in r && i !in r;
    RingAppend(l, r, i);
    QueueChanged(l, Appended(l, r[|r| - 1], r[0], i), rings, n, q, i, r + [i]);
  }

  /** The links once i, between `before` and `after`, is bypassed and cleared. */
  function Bypassed(l: Links, q: nat, before: nat, after: nat, i: nat): Links
    requires before < |l.next| == |l.prev| && after < |l.prev| && i < |l.next| && q < |l.heads|
  {
    Links(l.next[before := after][i := -1], l.prev[after := before][i := -1], l.heads[q := after])
  }

  lemma OnlyOneHead(r: seq<nat>, j: nat)
    requires Distinct(r) && j < |r| && r[Succ(|r|, j)] == r[0]
    ensures j == |r| - 1
  {
  }

  /** Position of the slot before position k in a circle of n. */
  function Pred(n: nat, k: nat): nat
    requires k < n
  {
    if k == 0 then n - 1 else k - 1
  }

  /** Where position j of the shortened ring comes from. */
  lemma UnlinkedAt(r: seq<nat>, i: nat, j: nat) returns (p: nat)
    requires Distinct(r) && i in r && j < |r| - 1
    ensures var k, n, u := IndexOf(r, i), |r|, Unlinked(r, i);
      && p < n && p != k && |u| == n - 1 && u[j] == r[p] && r[p] in r && r[Succ(n, p)] in r
      && u[Succ(n - 1, j)] == (if p == Pred(n, k) then r[Succ(n, k)] else r[Succ(n, p)])
      && (p == Pred(n, k) || Succ(n, p) != k)
      && (p != Pred(n, k) ==> r[p] != r[Pred(n, k)] && r[Succ(n, p)] != r[Succ(n, k)])
      && r[p] != i && u[Succ(n - 1, j)] != i
  {
    var k, n := IndexOf(r, i), |r|;
    p := if k + 1 + j < n then k + 1 + j else k + 1 + j - n;
  }

  lemma RingBypass(l: Links, q: nat, r: seq<nat>, i: nat)
    requires RingLinked(l, r) && Distinct(r) && |r| > 1 && i in r && q < |l.heads|
    requires |l.next| == |l.prev| && forall x | x in r :: x < |l.next|
    ensures var k := IndexOf(r, i); var before, after := r[Pred(|r|, k)], r[Succ(|r|, k)];
      && before in r && after in r && i < |l.next|
      && l.next[i] == after && l.prev[i] == before && before != i && after != i
      && RingLinked(Bypassed(l, q, before, after, i), Unlinked(r, i))
  {
    var k := IndexOf(r, i);
    var n, before, after := |r|, r[Pred(|r|, k)], r[Succ(|r|, k)];
    assert before in r && after in r && Succ(n, Pred(n, k)) == k;
    var l', u := Bypassed(l, q, before, after, i), Unlinked(r, i);
    assert LinkedAt(l, r, k) && LinkedAt(l, r, Pred(n, k));
    forall j | 0 <= j < |u| ensures LinkedAt(l', u, j) {
      var p := UnlinkedAt(r, i, j);
      assert LinkedAt(l, r, p);
    }
  }

  lemma BypassKeepsLinks(l: Links, rings: seq<seq<nat>>, n: nat, q: nat, i: nat)
    requires LinksOk(l, rings, n) && RingsApart(rings, n)
    requires q < |rings| && i in rings[q] && |rings[q]| > 1
    ensures var r := rings[q]; var k := IndexOf(r, i); var before, after := r[Pred(|r|, k)], r[Succ(|r|, k)];
      && before < n && after < n && i < n && before != i && after != i
      && l.next[i] == after && l.prev[i] == before
      && LinksOk(Bypassed(l, q, before, after, i), rings[q := Unlinked(r, i)], n)
  {
    var r := rings[q];
    var k := IndexOf(r, i);
    var before, after := r[Pred(|r|, k)], r[Succ(|r|, k)];
    RingBypass(l, q, r, i);
    UnlinkedElements(r, i);
    assert Unlinked(r, i)[0] == after;
    QueueChanged(l, Bypassed(l, q, before, after, i), rings, n, q, i, Unlinked(r, i));
  }

  /** The links once i, alone in ring q, is cleared. */
  lemma ClearKeepsLinks(l: Links, rings: seq<seq<nat>>, n: nat, q: nat, i: nat)
    requires LinksOk(l, rings, n) && RingsApart(rings, n) && q < |rings| && rings[q] == [i]
    ensures i < n && l.next[i] == i && l.prev[i] == i && Unlinked([i], i) == []
    ensures LinksOk(Links(l.next[i := -1], l.prev[i := -1], l.heads[q := -1]), rings[q := []], n)
  {
    assert i in rings[q];
    assert LinkedAt(l, rings[q], 0);
    QueueChanged(l, Links(l.next[i := -1], l.prev[i := -1], l.heads[q := -1]), rings, n, q, i, []);
  }

  lemma StartKeepsLinks(l: Links, rings: seq<seq<nat>>, n: nat, q: nat, i: nat)
    requires LinksOk(l, rings, n) && RingsApart(rings, n) && q < |rings| && rings[q] == []
    requires i < n && !InSomeRing(rings, i)
    ensures LinksOk(Links(l.next[i := i], l.prev[i := i], l.heads[q := i]), rings[q := [i]], n)
  {
    QueueChanged(l, Links(l.next[i := i], l.prev[i := i], l.heads[q := i]), rings, n, q, i, [i]);
  }

  /** Moving one slot between ring q and no ring keeps the rings apart. */
  lemma ApartAfter(rings: seq<seq<nat>>, n: nat, q: nat, i: nat, r': seq<nat>)
    requires RingsApart(rings, n) && q < |rings| && i < n && Distinct(r')
    requires i in rings[q] || !InSomeRing(rings, i)
    requires forall x: nat | x != i :: x in r' <==> x in rings[q]
    ensures RingsApart(rings[q := r'], n)
  {
  }

  /** A process is in a queue exactly when both its links are not NULL. */
  lemma QueuedMeansLinked(l: Links, rings: seq<seq<nat>>, n: nat, q: nat, i: nat)
    requires LinksOk(l, rings, n) && RingsApart(rings, n) && q < |rings| && i < n
    requires i in rings[q] || !InSomeRing(rings, i)
    ensures i in rings[q] <==> l.next[i] >= 0 && l.prev[i] >= 0
    ensures i !in rings[q] ==> !InSomeRing(rings, i)
  {
    if i in rings[q] {
      var r := rings[q];
      var k := IndexOf(r, i);
      assert LinkedAt(l, r, k) && LinkedAt(l, r, Pred(|r|, k)) && Succ(|r|, Pred(|r|, k)) == k;
    }
  }

  lemma RingsOkApart(k: Kernel)
    requires RingsOk(k)
    ensures RingsApart(k.rings, |k.procs|)
    ensures forall i: nat | i < |k.procs| && k.procs[i].priority < |k.rings| ::
      i in k.rings[k.procs[i].priority] || !InSomeRing(k.rings, i)
    ensures forall i: nat | i < |k.procs| && !Queued(k.procs[i]) :: !InSomeRing(k.rings, i)
  {
  }

  lemma FirstFree(procs: seq<Proc>, n: nat)
    requires n <= |procs| && forall i | 0 <= i < n :: procs[i].state != Exited
    requires n < |procs| ==> procs[n].state == Exited
    ensures FreeSlot(procs) == n
  {
  }

  function WithProc(k: Kernel, i: nat, p: Proc): Kernel
    requires i < |k.procs|
  {
    k.(procs := k.procs[i := p])
  }

  /** Storing a field before or after requeueing makes no difference to the queues. */
  lemma UpdateAndStore(k: Kernel, i: nat, a: Proc, b: Proc)
    requires Shape(k) && i < |k.procs| && a.priority == b.priority < |k.rings| && Queued(a) == Queued(b)
    ensures Shape(WithProc(k, i, a)) && WithProc(Update(WithProc(k, i, a), i, a), i, b) == Update(k, i, b)
  {
    assert k.procs[i := a][i := a][i := b] == k.procs[i := b];
  }

  /** The scan of one process, assignment by assignment. */
  lemma ScanInSteps(k: Kernel, i: nat)
    requires Shape(k) && RingsOk(k) && i < |k.procs|
    ensures var p := Alarmed(k.procs[i], k.ticks); var k1 := Patch(k, i, p);
      && (TtyExpired(p, k.ticks) ==>
            Patch(Update(k1, i, p.(state := Runnable)), i, p.(state := Runnable, ttyBlock := 0)) == ScanOne(k, i))
      && (!TtyExpired(p, k.ticks) && Interrupted(p) ==>
            Update(k1, i, p.(state := Runnable)) == ScanOne(k, i))
      && (!TtyExpired(p, k.ticks) && !Interrupted(p) ==> k1 == ScanOne(k, i))
  {
  }

  // ---------------------------------------------------------------------------------
  // The process table
  // ---------------------------------------------------------------------------------

  class Process {
    const slot: nat
    var state: PState
    var priority: nat
    var counter: int
    var sleepingOn: nat
    var sigpending: set<nat>
    var alarm: nat
    var ttyBlock: nat
    var queueNext: Process?
    var queuePrev: Process?

    constructor (slot: nat)
      ensures Unqueued(this, slot)
    {
      this.slot := slot;
      state, priority, counter, sleepingOn, sigpending, alarm, ttyBlock := Exited, 0, 0, 0, {}, 0, 0;
      queueNext, queuePrev := null, null;
    }

    function Value(): Proc
      reads this
    {
      Proc(state, priority, counter, sleepingOn, sigpending, alarm, ttyBlock)
    }
  }

  predicate Unqueued(p: Process, i: nat)
    reads p
  {
    p.slot == i && p.Value() == Proc(Exited, 0, 0, 0, {}, 0, 0) && p.queueNext == null && p.queuePrev == null
  }

  ghost function InitialKernel(n: nat, nq: nat): Kernel
    requires n > 0 && nq > USER_PRIORITY
  {
    Kernel(seq(n, i => Proc(if i == 0 then Runnable else Exited, 0, 0, 0, {}, 0, 0)),
           seq(nq, q => if q == 0 then [0] else []), 0, 0)
  }

  ghost function InitialLinks(n: nat, nq: nat): Links {
    Links(seq(n, i => if i == 0 then 0 else -1), seq(n, i => if i == 0 then 0 else -1), seq(nq, q => if q == 0 then 0 else -1))
  }

  /** At the start, process 0 is runnable, current, and a ring by itself. */
  lemma InitialIsOk(n: nat, nq: nat)
    requires n > 0 && nq > USER_PRIORITY
    ensures Inv(InitialKernel(n, nq))
    ensures var k := InitialKernel(n, nq);
      && |k.procs| == n && |k.rings| == nq && k.current == 0 && k.procs[0] == Proc(Runnable, 0, 0, 0, {}, 0, 0)
      && (forall i | 0 < i < n :: k.procs[i].state == Exited) && k.rings[0] == [0] && forall q | 0 < q < nq :: k.rings[q] == []
    ensures LinksOk(InitialLinks(n, nq), InitialKernel(n, nq).rings, n)
    ensures RingsApart(InitialKernel(n, nq).rings, n)
  {
    var k := InitialKernel(n, nq);
    assert forall q | 0 <= q < nq :: k.rings[q] == if q == 0 then [0] else [];
    assert 0 in k.rings[0] && InSomeRing(k.rings, 0);
  }

  class KernelScheduler {
    const table: seq<Process>          // process_table
    const queues: array<Process?>      // process_queues
    var current: Process?              // current_process
    var timerTicks: nat
    ghost var kernel: Kernel           // what the fields above amount to
    ghost var links: Links             // the pointers, as slot numbers

    /** processes_init, with n slots and nq priorities: process 0 alone is queued. */
    constructor (n: nat, nq: nat)
      requires n > 0 && nq > USER_PRIORITY
      ensures Operating() && kernel == InitialKernel(n, nq) && fresh(queues) && forall p | p in table :: fresh(p)
    {
      var t: seq<Process> := [];
      while |t| < n
        invariant |t| <= n
        invariant forall i | 0 <= i < |t| :: fresh(t[i]) && Unqueued(t[i], i)
      {
        var p := new Process(|t|);
        t := t + [p];
      }
      var first := t[0];
      first.state := Runnable;
      first.queueNext, first.queuePrev := first, first;
      table := t;
      queues := new Process?[nq](i => if i == 0 then first else null);
      current, timerTicks := first, 0;
      kernel, links := InitialKernel(n, nq), InitialLinks(n, nq);
      new;
      forall i | 0 <= i < n
        ensures MirrorsAt(i)
      {
        assert i > 0 ==> Unqueued(table[i], i);
      }
      InitialIsOk(n, nq);
    }

    ghost function Ptr(i: int): Process?
      requires i < |table|
    {
      if i < 0 then null else table[i]
    }

    /** The fields agree with `kernel`, and the pointers with `links`. */
    ghost predicate Mirrors()
      reads this, queues, table
    {
      && |kernel.procs| == |links.next| == |links.prev| == |table|
      && |kernel.rings| == |links.heads| == queues.Length
      && kernel.current < |table| && current == Ptr(kernel.current)
      && timerTicks == kernel.ticks
      && (forall q | 0 <= q < queues.Length :: links.heads[q] < |table| && queues[q] == Ptr(links.heads[q]))
      && (forall i | 0 <= i < |table| :: MirrorsAt(i))
    }

    ghost predicate MirrorsAt(i: nat)
      requires i < |table| && i < |kernel.procs| && i < |links.next| && i < |links.prev|
      reads this, table
    {
      && table[i].slot == i && table[i].Value() == kernel.procs[i]
      && links.next[i] < |table| && links.prev[i] < |table|
      && table[i].queueNext == Ptr(links.next[i])
      && table[i].queuePrev == Ptr(links.prev[i])
    }

    ghost predicate Linked()
      reads this
    {
      LinksOk(links, kernel.rings, |table|) && RingsApart(kernel.rings, |table|)
    }

    ghost predicate Here(proc: Process)
      reads this
    {
      proc.slot < |table| && proc == table[proc.slot]
    }

    // One pointer assignment each, with its effect on `links`.

    method SetNext(proc: Process, to: Process?, ghost t: int)
      requires Mirrors() && Here(proc) && t < |table| && to == Ptr(t)
      modifies this`links, proc`queueNext
      ensures Mirrors() && links == old(links).(next := old(links).next[proc.slot := t])
    {
      proc.queueNext := to;
      links := links.(next := links.next[proc.slot := t]);
      forall i | 0 <= i < |table| ensures MirrorsAt(i) {
        assert old(MirrorsAt(i));
      }
    }

    method SetPrev(proc: Process, to: Process?, ghost t: int)
      requires Mirrors() && Here(proc) && t < |table| && to == Ptr(t)
      modifies this`links, proc`queuePrev
      ensures Mirrors() && links == old(links).(prev := old(links).prev[proc.slot := t])
    {
      proc.queuePrev := to;
      links := links.(prev := links.prev[proc.slot := t]);
      forall i | 0 <= i < |table| ensures MirrorsAt(i) {
        assert old(MirrorsAt(i));
      }
    }

    method SetHead(q: nat, to: Process?, ghost t: int)
      requires Mirrors() && q < queues.Length && t < |table| && to == Ptr(t)
      modifies this`links, queues
      ensures Mirrors() && links == old(links).(heads := old(links).heads[q := t])
    {
      queues[q] := to;
      links := links.(heads := links.heads[q := t]);
      forall i | 0 <= i < |table| ensures MirrorsAt(i) {
        assert old(MirrorsAt(i));
      }
    }

    ghost method SetRing(q: nat, r: seq<nat>)
      requires Mirrors() && q < |kernel.rings|
      modifies this`kernel
      ensures Mirrors() && kernel == old(kernel).(rings := old(kernel).rings[q := r])
    {
      kernel := kernel.(rings := kernel.rings[q := r]);
      forall i | 0 <= i < |table| ensures MirrorsAt(i) {
        assert old(MirrorsAt(i));
      }
    }

    /** add_to_queue's walk: the process whose successor is the head. */
    method FindTail(head: Process, ghost r: seq<nat>) returns (p: Process)
      requires Mirrors() && RingLinked(links, r) && Distinct(r)
      requires r != [] && r[0] < |table| && head == table[r[0]]
      ensures r[|r| - 1] < |table| && p == table[r[|r| - 1]]
    {
      p := head;
      ghost var j := 0;
      assert LinkedAt(links, r, 0) && MirrorsAt(r[0]);
      while p.queueNext != head
        invariant j < |r| && r[j] < |table| && p == table[r[j]]
        decreases |r| - j
      {
        assert LinkedAt(links, r, j) && MirrorsAt(r[j]);
        p := p.queueNext;
        assert j + 1 < |r|;
        j := j + 1;
        assert LinkedAt(links, r, j);
      }
      assert LinkedAt(links, r, j) && MirrorsAt(r[j]) && MirrorsAt(r[Succ(|r|, j)]) && MirrorsAt(r[0]);
      OnlyOneHead(r, j);
    }

    /** The pointer assignments of add_to_queue for a ring that is not empty. */
    method Append(proc: Process, tail: Process, head: Process, ghost t: nat, ghost h: nat)
      requires Mirrors() && Here(proc)
      requires t < |table| && tail == table[t] && h < |table| && head == table[h]
      modifies this`links, table
      ensures Mirrors() && links == Appended(old(links), t, h, proc.slot)
    {
      assert MirrorsAt(t) && MirrorsAt(h);
      SetNext(tail, proc, proc.slot);
      SetPrev(proc, tail, t);
      SetNext(proc, head, h);
      SetPrev(head, proc, proc.slot);
    }

    /** add_to_queue: walk to the tail, and put the process behind it. */
    method AddToQueue(proc: Process)
      requires Mirrors() && Linked() && Here(proc) && proc.priority < queues.Length
      requires !InSomeRing(kernel.rings, proc.slot)
      modifies this`kernel, this`links, queues, table
      ensures Mirrors() && LinksOk(links, kernel.rings, |table|)
      ensures kernel == old(kernel).(rings :=
        old(kernel).rings[old(proc.priority) := old(kernel).rings[old(proc.priority)] + [proc.slot]])
    {
      ghost var i, q := proc.slot, proc.priority;
      ghost var r := kernel.rings[q];
      var pri := proc.priority;
      var head := queues[pri];
      if head == null {
        StartKeepsLinks(links, kernel.rings, |table|, q, i);
        SetHead(pri, proc, i);
        SetPrev(proc, proc, i);
        SetNext(proc, proc, i);
      } else {
        AppendKeepsLinks(links, kernel.rings, |table|, q, i);
        var tail := FindTail(head, r);
        Append(proc, tail, head, r[|r| - 1], r[0]);
      }
      SetRing(q, r + [i]);
    }

    /** The pointer assignments of remove_from_queue when others stay in the ring. */
    method Bypass(proc: Process, pri: nat, ghost before: nat, ghost after: nat)
      requires Mirrors() && Here(proc) && pri < queues.Length
      requires before < |table| && after < |table| && before != proc.slot && after != proc.slot
      requires links.next[proc.slot] == after && links.prev[proc.slot] == before
      modifies this`links, queues, table
      ensures Mirrors()
      ensures links == Bypassed(old(links), pri, before, after, proc.slot)
    {
      assert MirrorsAt(proc.slot) && MirrorsAt(before) && MirrorsAt(after);
      SetPrev(proc.queueNext, proc.queuePrev, before);
      assert MirrorsAt(proc.slot);
      SetNext(proc.queuePrev, proc.queueNext, after);
      assert MirrorsAt(proc.slot);
      SetHead(pri, proc.queueNext, after);
      SetPrev(proc, null, -1);
      SetNext(proc, null, -1);
    }

    /** remove_from_queue: bypass the process; its successor becomes the head. */
    method RemoveFromQueue(proc: Process)
      requires Mirrors() && Linked() && Here(proc) && proc.priority < queues.Length
      requires proc.slot in kernel.rings[proc.priority]
      modifies this`kernel, this`links, queues, table
      ensures Mirrors() && LinksOk(links, kernel.rings, |table|)
      ensures kernel == old(kernel).(rings :=
        old(kernel).rings[old(proc.priority) := Unlinked(old(kernel).rings[old(proc.priority)], proc.slot)])
    {
      ghost var i, q, l := proc.slot, proc.priority, links;
      ghost var r := kernel.rings[q];
      var pri := proc.priority;
      assert MirrorsAt(i);
      if |r| == 1 {
        assert r == [i];
        ClearKeepsLinks(links, kernel.rings, |table|, q, i);
      } else {
        BypassKeepsLinks(links, kernel.rings, |table|, q, i);
        assert MirrorsAt(links.next[i]) && MirrorsAt(links.prev[i]);
      }
      if proc.queueNext == proc && proc.queuePrev == proc {
        SetHead(pri, null, -1);
        SetPrev(proc, null, -1);
        SetNext(proc, null, -1);
      } else {
        Bypass(proc, pri, l.prev[i], l.next[i]);
      }
      SetRing(q, Unlinked(r, i));
    }

    /** Assigns fields of a process: p is its value with the assigned fields changed. */
    method Store(proc: Process, p: Proc)
      requires Mirrors() && Here(proc)
      modifies this`kernel, proc
      ensures Mirrors() && proc.Value() == p
      ensures kernel == old(kernel).(procs := old(kernel).procs[proc.slot := p])
    {
      proc.state, proc.priority, proc.counter := p.state, p.priority, p.counter;
      proc.sleepingOn, proc.sigpending := p.sleepingOn, p.sigpending;
      proc.alarm, proc.ttyBlock := p.alarm, p.ttyBlock;
      kernel := kernel.(procs := kernel.procs[proc.slot := p]);
      forall i | 0 <= i < |table| ensures MirrorsAt(i) {
        assert old(MirrorsAt(i));
      }
    }

    /** adjust_proc_queues: put the process where its state says. */
    method AdjustProcQueues(proc: Process)
      requires Mirrors() && Linked() && Here(proc) && Shape(kernel) && proc.priority < queues.Length
      requires proc.slot in kernel.rings[proc.priority] || !InSomeRing(kernel.rings, proc.slot)
      modifies this`kernel, this`links, queues, table
      ensures Mirrors() && Linked()
      ensures kernel == Update(old(kernel), proc.slot, old(proc.Value()))
    {
      ghost var i, q := proc.slot, proc.priority;
      ghost var r, rings := kernel.rings[q], kernel.rings;
      assert MirrorsAt(i);
      QueuedMeansLinked(links, kernel.rings, |table|, q, i);
      if proc.queueNext != null && proc.queuePrev != null {
        UnlinkedElements(r, i);
        RemoveFromQueue(proc);
        ApartAfter(rings, |table|, q, i, Unlinked(r, i));
        hide Unlinked, InSomeRing;
      }
      assert MirrorsAt(i);
      ghost var out := kernel.rings[q];
      if proc.state == Runnable || proc.state == Running {
        AddToQueue(proc);
        ApartAfter(rings, |table|, q, i, out + [i]);
      }
    }

    ghost predicate Valid()
      reads this, queues, table
    {
      Mirrors() && Linked() && Shape(kernel) && RingsOk(kernel)
    }

    /** Change a process and put it on the queue its state asks for. */
    method StoreAndAdjust(proc: Process, p: Proc)
      requires Valid() && Here(proc) && p.priority < |kernel.rings|
      requires p.priority == kernel.procs[proc.slot].priority || !Queued(kernel.procs[proc.slot])
      modifies this`kernel, this`links, queues, table
      ensures Valid() && kernel == Update(old(kernel), proc.slot, p)
    {
      assert MirrorsAt(proc.slot);
      UpdateAndStore(kernel, proc.slot, p, p);
      UpdateKeepsRings(kernel, proc.slot, p);
      RingsOkApart(kernel);
      Store(proc, p);
      AdjustProcQueues(proc);
    }

    /** Change a process where its queue does not depend on the change. */
    method StoreOnly(proc: Process, p: Proc)
      requires Valid() && Here(proc) && p.priority == kernel.procs[proc.slot].priority
      requires Queued(p) == Queued(kernel.procs[proc.slot])
      modifies this`kernel, proc
      ensures Valid() && kernel == Patch(old(kernel), proc.slot, p)
    {
      assert MirrorsAt(proc.slot);
      PatchKeepsRings(kernel, proc.slot, p);
      Store(proc, p);
    }

    /** One turn of schedule's loop over the process table. */
    method ScheduleScan(tmp: Process)
      requires Valid() && Here(tmp)
      modifies this`kernel, this`links, queues, table
      ensures Valid() && kernel == SchedulerSpec.ScanOne(old(kernel), tmp.slot)
    {
      ghost var k, i := kernel, tmp.slot;
      assert MirrorsAt(i);
      if tmp.alarm != 0 && tmp.alarm < timerTicks {
        StoreOnly(tmp, tmp.Value().(sigpending := tmp.sigpending + {SIGALRM}, alarm := 0));
        assert MirrorsAt(i);
      }
      assert kernel == Patch(k, i, Alarmed(k.procs[i], k.ticks));
      if tmp.ttyBlock != 0 && tmp.ttyBlock < timerTicks {
        StoreAndAdjust(tmp, tmp.Value().(state := Runnable));
        assert MirrorsAt(i);
        StoreOnly(tmp, tmp.Value().(ttyBlock := 0));
        assert MirrorsAt(i);
      }
      if tmp.state == SleepInterruptible && tmp.sigpending != {} {
        StoreAndAdjust(tmp, tmp.Value().(state := Runnable));
      }
      ScanInSteps(k, i);
    }

    /** schedule's first loop. */
    method ScanTable()
      requires Valid()
      modifies this`kernel, this`links, queues, table
      ensures Valid() && kernel == Scan(old(kernel), |table|)
    {
      ghost var k := kernel;
      for i := 0 to |table|
        invariant Valid() && |k.procs| == |table| && kernel == Scan(k, i)
      {
        assert MirrorsAt(i);
        ScheduleScan(table[i]);
      }
    }

    method Schedule()
      requires Valid()
      modifies this, queues, table
      ensures Valid() && kernel == SchedulerSpec.Schedule(old(kernel))
    {
      ScanTable();
      PickChooses(kernel);
      PickHighest();
    }

    method SetCurrent(proc: Process?, ghost i: int)
      requires Mirrors() && i < |table| && proc == Ptr(i)
      modifies this`kernel, this`current
      ensures Mirrors() && kernel == old(kernel).(current := i)
    {
      current := proc;
      kernel := kernel.(current := i);
      forall j | 0 <= j < |table| ensures MirrorsAt(j) {
        assert old(MirrorsAt(j));
      }
    }

    /** schedule's second loop: the head of the highest queue that is not empty. */
    method PickHighest()
      requires Valid()
      modifies this, table
      ensures Valid() && kernel == Pick(old(kernel))
    {
      ghost var k := kernel;
      PickChooses(k);
      var q := queues.Length;
      while q > 0
        invariant 0 <= q <= queues.Length
        invariant Highest(k.rings, queues.Length) == Highest(k.rings, q)
      {
        q := q - 1;
        if queues[q] != null {
          ghost var i := k.rings[q][0];
          assert MirrorsAt(i) && i in k.rings[q];
          Store(queues[q], queues[q].Value().(state := Running));
          SetCurrent(queues[q], i);
          return;
        }
      }
      SetCurrent(queues[0], -1);
    }

    /** Between two entries into the kernel. */
    ghost predicate Operating()
      reads this, queues, table
    {
      Valid() && Inv(kernel)
    }

    /** What exit, stop and pause have in common: the current process leaves its queue and
        another is chosen. */
    method BlockCurrent(p: Proc)
      requires Operating() && p.priority == Current(kernel).priority && p.counter >= 0
      requires kernel.current != 0
      modifies this, queues, table
      ensures Operating() && kernel == Block(old(kernel), p)
    {
      ghost var k := kernel;
      assert MirrorsAt(kernel.current);
      BlockKeepsInv(k, p);
      StoreAndAdjust(current, p);
      Schedule();
    }

    /** sleep; it panics for process 0 and for a state that is not a sleep. */
    method Sleep(addr: nat, kind: PState) returns (panicked: bool)
      requires Operating()
      modifies this, queues, table
      ensures panicked <==>
        old(kernel).current == 0 || (kind != SleepInterruptible && kind != SleepUninterruptible)
      ensures !panicked ==> Operating() && kernel == Step(old(kernel), Blocks(kind, addr))
    {
      assert MirrorsAt(kernel.current) && MirrorsAt(0);
      if current == table[0] {
        return true;
      }
      if kind != SleepInterruptible && kind != SleepUninterruptible {
        return true;
      }
      BlockCurrent(current.Value().(state := kind, sleepingOn := addr));
      return false;
    }

    /** One turn of wakeup's loop. */
    method WakeOne(i: nat, addr: nat, ghost k: Kernel) returns (woke: bool)
      requires Valid() && Shape(k) && RingsOk(k) && |k.procs| == |table| && i < |table|
      requires kernel == WakeScan(k, i, addr)
      modifies this`kernel, this`links, queues, table
      ensures Valid() && kernel == WakeScan(k, i + 1, addr)
      ensures woke == WakesOn(k.procs[i], addr)
    {
      assert MirrorsAt(i);
      WakeScanProcs(k, i, addr);
      var proc := table[i];
      woke := (proc.state == SleepInterruptible || proc.state == SleepUninterruptible) && proc.sleepingOn == addr;
      if woke {
        StoreAndAdjust(proc, proc.Value().(state := Runnable, sleepingOn := 0));
      }
    }

    /** wakeup's loop over the process table. */
    method WakeAll(addr: nat) returns (sched: bool)
      requires Valid()
      modifies this`kernel, this`links, queues, table
      ensures Valid() && |old(kernel).procs| == |table| && kernel == WakeScan(old(kernel), |table|, addr)
      ensures sched == SomeoneWakes(old(kernel).procs, |table|, addr)
    {
      ghost var k := kernel;
      sched := false;
      for i := 0 to |table|
        invariant Valid() && |k.procs| == |table| && kernel == WakeScan(k, i, addr)
        invariant sched == SomeoneWakes(k.procs, i, addr)
      {
        var woke := WakeOne(i, addr, k);
        sched := sched || woke;
      }
    }

    method Wakeup(addr: nat, switch: bool)
      requires Operating()
      modifies this, queues, table
      ensures Operating() && kernel == SchedulerSpec.Wakeup(old(kernel), addr, switch)
    {
      WakeupKeepsInv(kernel, addr, switch);
      SomeoneIs(kernel.procs, |kernel.procs|, addr);
      var sched := WakeAll(addr);
      if sched && switch {
        Schedule();
      }
    }

    /** What the timer interrupt does before it calls schedule. */
    method ChargeTick()
      requires Operating()
      modifies this, queues, table
      ensures Valid() && kernel == Charged(old(kernel))
    {
      AdvanceClock();
      assert MirrorsAt(kernel.current);
      var left := current.counter;
      if left == 0 {
        StoreAndAdjust(current, current.Value().(counter := 0, state := Runnable));
      } else {
        StoreOnly(current, current.Value().(counter := left - 1));
      }
    }

    method TimerIrq()
      requires Operating()
      modifies this, queues, table
      ensures Operating() && kernel == Tick(old(kernel))
    {
      TickKeepsInv(kernel);
      ChargeTick();
      Schedule();
    }

    method AdvanceClock()
      requires Valid()
      modifies this`kernel, this`timerTicks
      ensures Valid() && kernel == old(kernel).(ticks := (old(kernel).ticks + 1) % 0x1_0000_0000)
    {
      timerTicks := (timerTicks + 1) % 0x1_0000_0000;
      kernel := kernel.(ticks := timerTicks);
      forall j | 0 <= j < |table| ensures MirrorsAt(j) {
        assert old(MirrorsAt(j));
      }
    }

    /** Slot c is free, but holds a copy of p with these two pointers; everything else is in
        order. */
    ghost predicate LeftBehind(c: nat, p: Proc, next: Process?, prev: Process?)
      reads this, queues, table
    {
      && c < |table| == |kernel.procs| == |links.next| == |links.prev| && Linked() && Inv(kernel)
      && kernel.procs[c].state == Exited && !InSomeRing(kernel.rings, c)
      && table[c].Value() == p.(state := Exited) && table[c].queueNext == next && table[c].queuePrev == prev
      && forall i | 0 <= i < |table| && i != c :: MirrorsAt(i)
    }

    /** The scheduling part of kernel_fork; not ok is EAGAIN. `archOk` tells whether arch_fork
        succeeds. If it does not, the slot keeps the parent's pointers, so that the free slot
        is in a queue by the test of adjust_proc_queues although it is in none. */
    method KernelFork(archOk: bool) returns (ok: bool)
      requires Operating()
      modifies this, queues, table
      ensures archOk || FreeSlot(old(kernel).procs) == |table| ==> Operating() && kernel == if archOk then Fork(old(kernel)) else old(kernel)
      ensures ok <==> archOk && exists i | 0 <= i < |old(kernel).procs| :: old(kernel).procs[i].state == Exited
      ensures !archOk && FreeSlot(old(kernel).procs) < |table| ==>
        && kernel == old(kernel) && old(current) != null
        && LeftBehind(FreeSlot(old(kernel).procs), old(current.Value()), old(current.queueNext), old(current.queuePrev))
        && old(current.queueNext) != null && old(current.queuePrev) != null
    {
      ghost var k := kernel;
      var child := 0;
      while child < |table| && table[child].state != Exited
        invariant 0 <= child <= |table|
        invariant forall i | 0 <= i < child :: k.procs[i].state != Exited
      {
        assert MirrorsAt(child);
        child := child + 1;
      }
      assert child < |table| ==> MirrorsAt(child);
      FirstFree(k.procs, child);
      if child == |table| {
        return false;
      }
      assert MirrorsAt(k.current);
      ForkKeepsInv(k);
      assert kernel.procs[child].state == Exited && table[child].slot == child;
      if !archOk {
        LeaveBehind(table[child]);
        return false;
      }
      assert current.Value() == Current(k) && ChildOf(current.Value()).priority < |k.rings|;
      StoreAndAdjust(table[child], ChildOf(current.Value()));
      Schedule();
      return true;
    }

    /** The current process is in a queue, a free slot is in none. */
    lemma ParentAndSlot(i: nat)
      requires Operating() && i < |table| && kernel.procs[i].state == Exited
      ensures 0 <= kernel.current < |table| && kernel.current != i && current == table[kernel.current]
      ensures current.queueNext != null && current.queuePrev != null
      ensures current.slot == kernel.current && !InSomeRing(kernel.rings, i)
    {
      assert MirrorsAt(kernel.current);
      QueuedMeansLinked(links, kernel.rings, |table|, Current(kernel).priority, kernel.current);
      QueuedMeansLinked(links, kernel.rings, |table|, kernel.procs[i].priority, i);
    }

    /** The memmove of kernel_fork, and the reset of the state when arch_fork has failed. */
    method LeaveBehind(proc: Process)
      requires Operating() && Here(proc) && kernel.procs[proc.slot].state == Exited
      modifies table
      ensures kernel.current >= 0 && current != null && current.queueNext != null && current.queuePrev != null
      ensures unchanged(this) && unchanged(current)
      ensures LeftBehind(proc.slot, old(current.Value()), old(current.queueNext), old(current.queuePrev))
    {
      ParentAndSlot(proc.slot);
      hide SchedulerSpec.Inv, Linked, InSomeRing, RingsOk, Shape;
      proc.priority, proc.counter, proc.sleepingOn := current.priority, current.counter, current.sleepingOn;
      proc.sigpending, proc.alarm, proc.ttyBlock := current.sigpending, current.alarm, current.ttyBlock;
      proc.queueNext, proc.queuePrev := current.queueNext, current.queuePrev;
      proc.state := Exited;
      forall i | 0 <= i < |table| && i != proc.slot ensures MirrorsAt(i) {
        assert old(MirrorsAt(i));
      }
    }

    method SendSignal(i: nat, sig: nat)
      requires Operating() && i < |table|
      modifies this`kernel, table
      ensures Operating() && kernel == Step(old(kernel), Signals(i, sig))
    {
      assert MirrorsAt(i);
      StepKeepsInv(kernel, Signals(i, sig));
      StoreOnly(table[i], table[i].Value().(sigpending := table[i].sigpending + {sig}));
    }

    /** A pending signal is taken, by signal_handler or by waitpid. */
    method TakeSignal(i: nat, sig: nat)
      requires Operating() && i < |table|
      modifies this`kernel, table
      ensures Operating() && kernel == Step(old(kernel), Delivers(i, sig))
    {
      assert MirrorsAt(i);
      StepKeepsInv(kernel, Delivers(i, sig));
      StoreOnly(table[i], table[i].Value().(sigpending := table[i].sigpending - {sig}));
    }

    method Reap(i: nat)
      requires Operating() && i < |table| && kernel.procs[i].state == Zombie
      modifies this`kernel, table
      ensures Operating() && kernel == Step(old(kernel), Reaps(i))
    {
      assert MirrorsAt(i);
      StepKeepsInv(kernel, Reaps(i));
      StoreOnly(table[i], table[i].Value().(state := Exited));
    }

    method SetDeadline(tty: bool, at: nat)
      requires Operating()
      modifies this`kernel, table
      ensures Operating()
      ensures kernel == Step(old(kernel), if tty then SetsTtyBlock(at) else SetsAlarm(at))
    {
      assert MirrorsAt(kernel.current);
      StepKeepsInv(kernel, if tty then SetsTtyBlock(at) else SetsAlarm(at));
      var p := current.Value();
      StoreOnly(current, if tty then p.(ttyBlock := at) else p.(alarm := at));
    }

    /** One entry into the kernel. Nothing happens for an event that cannot occur. */
    method Perform(ev: Event)
      requires Operating()
      modifies this, queues, table
      ensures Operating()
      ensures kernel == if Enabled(old(kernel), ev) then Step(old(kernel), ev) else old(kernel)
    {
      if ev.TimerTick? {
        TimerIrq();
      } else if ev.Blocks? {
        assert MirrorsAt(kernel.current) && MirrorsAt(0);
        if current != table[0] && ev.state != Running && ev.state != Runnable {
          BlockCurrent(current.Value().(state := ev.state, sleepingOn := ev.addr));
        }
      } else {
        PerformOther(ev);
      }
    }

    method PerformOther(ev: Event)
      requires Operating() && !ev.TimerTick? && !ev.Blocks?
      modifies this, queues, table
      ensures Operating()
      ensures kernel == if Enabled(old(kernel), ev) then Step(old(kernel), ev) else old(kernel)
    {
      match ev
      case Wakes(addr, switch) => Wakeup(addr, switch);
      case Forks => var ok := KernelFork(true);
      case Signals(i, sig) => if i < |table| { SendSignal(i, sig); }
      case Delivers(i, sig) => if i < |table| { TakeSignal(i, sig); }
      case Reaps(i) =>
        if i < |table| {
          assert MirrorsAt(i);
          if table[i].state == Zombie { Reap(i); }
        }
      case SetsAlarm(at) => SetDeadline(false, at);
      case SetsTtyBlock(at) => SetDeadline(true, at);
    }

    /** Whatever happens, in whatever order, the queues stay well formed and hold exactly the
        runnable processes, and the current process heads its queue. */
    method Run(evs: seq<Event>)
      requires Operating()
      modifies this, queues, table
      ensures Operating() && kernel == Replay(old(kernel), evs)
    {
      ghost var k := kernel;
      hide SchedulerSpec.Inv, Step, Enabled, Mirrors, Linked, Shape, RingsOk;
      for i := 0 to |evs|
        invariant Operating() && kernel == Replay(k, evs[..i])
      {
        Perform(evs[i]);
        assert evs[..i + 1][..i] == evs[..i];
      }
      assert evs[..|evs|] == evs;
    }
  }
}
