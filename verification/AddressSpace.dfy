/** fork and the write fault, as they rewrite page directories, page tables and the
    reference counts (sys/arch/i386/virtual_mm.c, sys/mm/page_alloc.c). */
module AddressSpace {
  import Bytes
  import opened CopyOnWrite

  datatype Option<T> = None | Some(value: T)

  const NR_PROC := 64

  /** reference_counts is an array of signed 8-bit `char`. */
  function ToChar(n: int): (c: int)
    ensures -128 <= c < 128 && (c - n) % 256 == 0
  {
    (n + 128) % 256 - 128
  }

  lemma CharInRange(n: int)
    requires -128 <= n < 128
    ensures ToChar(n) == n
  {
  }

  /** With at most 64 processes no counter ever wraps, up or down. */
  lemma CountsFitChar(s: Mm, f: nat)
    requires Inv(s) && f < |s.mem| && s.role[f] == Page && |s.cr3| <= NR_PROC
    ensures ToChar(s.counts[f] + 1) == s.counts[f] + 1 && ToChar(s.counts[f] - 1) == s.counts[f] - 1
  {
    CountBound(s, f);
    hide Inv;
  }

  // ---------------------------------------------------------------------------------
  // The two loops of copy_address_space, as predicates on memory
  // ---------------------------------------------------------------------------------

  ghost predicate Below(s: Mm, p: nat, i: nat, d: nat)
    requires Shape(s)
  {
    d < i && HasTable(s, p, d)
  }

  /** The first loop has handled the child's entries below i. */
  ghost predicate ChildMarked(s: Mm, p: nat, to: nat, i: nat, mem: seq<Frame>)
    requires Shape(s) && Separate(s) && p in s.cr3 && to < |s.mem| && i <= s.size
  {
    && |mem| == |s.mem|
    && |mem[to]| == s.size
    && (forall d | 0 <= d < s.size :: mem[to][d] ==
          if d < i then CowDirEntry(s.mem[s.cr3[p]][d]) else s.mem[s.cr3[p]][d])
    && (forall d: nat | Below(s, p, i, d) :: mem[TableFrame(s, p, d)] == CowTable(s.mem[TableFrame(s, p, d)]))
    && (forall f | 0 <= f < |s.mem| && f != to && !IsOldTable(s, p, i, f) :: mem[f] == s.mem[f])
  }

  ghost predicate IsOldTable(s: Mm, p: nat, i: nat, f: nat)
    requires Shape(s)
  {
    exists d: nat :: Below(s, p, i, d) && f == TableFrame(s, p, d)
  }

  lemma OldTablesGrow(s: Mm, p: nat, i: nat, f: nat)
    requires Shape(s)
    ensures IsOldTable(s, p, i, f) ==> IsOldTable(s, p, i + 1, f)
  {
    if d: nat :| Below(s, p, i, d) && f == TableFrame(s, p, d) {
      assert Below(s, p, i + 1, d);
    }
  }

  lemma ChildMarkStep(s: Mm, p: nat, to: nat, i: nat, mem: seq<Frame>, mem': seq<Frame>)
    requires Shape(s) && Separate(s) && p in s.cr3 && to in s.free && i < s.size
    requires ChildMarked(s, p, to, i, mem)
    requires mem' == if HasTable(s, p, i) then
        var table := TableFrame(s, p, i);
        var marked := mem[table := CowTable(mem[table])];
        marked[to := marked[to][i := marked[to][i].(writable := false)]]
      else mem
    ensures ChildMarked(s, p, to, i + 1, mem')
  {
    forall f | 0 <= f < |s.mem| && f != to && !IsOldTable(s, p, i + 1, f) ensures mem'[f] == s.mem[f] {
      OldTablesGrow(s, p, i, f);
      if HasTable(s, p, i) { assert Below(s, p, i + 1, i); }
    }
    forall d: nat | Below(s, p, i + 1, d)
      ensures mem'[TableFrame(s, p, d)] == CowTable(s.mem[TableFrame(s, p, d)])
    {
      if d < i {
        assert Below(s, p, i, d);
      } else {
        assert !IsOldTable(s, p, i, TableFrame(s, p, i));
      }
    }
  }

  /** The second loop has handled the parent's entries below |news|; news[d] is the fresh
      table of entry d. */
  ghost predicate ParentSplit(s: Mm, p: nat, to: nat, news: seq<nat>, mem: seq<Frame>)
    requires Shape(s) && Separate(s) && p in s.cr3 && to < |s.mem| && |news| <= s.size
    requires forall d: nat :: Below(s, p, |news|, d) ==> news[d] < |s.mem|
  {
    && |mem| == |s.mem|
    && |mem[to]| == s.size && |mem[s.cr3[p]]| == s.size
    && (forall d | 0 <= d < s.size :: mem[to][d] == CowDirEntry(s.mem[s.cr3[p]][d]))
    && (forall d | 0 <= d < s.size :: mem[s.cr3[p]][d] ==
          if d < |news| then ParentEntry(s.mem[s.cr3[p]][d], news[d]) else s.mem[s.cr3[p]][d])
    && (forall d: nat | HasTable(s, p, d) :: mem[TableFrame(s, p, d)] == CowTable(s.mem[TableFrame(s, p, d)]))
    && (forall d: nat | Below(s, p, |news|, d) :: mem[news[d]] == CowTable(s.mem[TableFrame(s, p, d)]))
    && (forall f | 0 <= f < |s.mem| && f != to && f != s.cr3[p] && !IsOldTable(s, p, s.size, f) &&
                   !IsNewTable(s, p, news, f) :: mem[f] == s.mem[f])
  }

  ghost predicate IsNewTable(s: Mm, p: nat, news: seq<nat>, f: nat)
    requires Shape(s)
  {
    exists d: nat :: Below(s, p, |news|, d) && f == news[d]
  }

  /** The fresh tables so far came from the free list, one each. */
  ghost predicate FreshSoFar(s: Mm, p: nat, to: nat, news: seq<nat>, free: set<nat>)
    requires Shape(s)
  {
    && to in s.free && to !in free && free <= s.free
    && |news| <= s.size
    && (forall d: nat | Below(s, p, |news|, d) :: news[d] in s.free && news[d] != to && news[d] !in free)
    && (forall d: nat, d': nat | Below(s, p, |news|, d) && Below(s, p, |news|, d') :: news[d] == news[d'] ==> d == d')
  }

  lemma FreshStep(s: Mm, p: nat, to: nat, news: seq<nat>, free: set<nat>, page: nat)
    requires Shape(s) && FreshSoFar(s, p, to, news, free) && |news| < s.size
    ensures page in free ==> FreshSoFar(s, p, to, news + [page], free - {page})
    ensures !HasTable(s, p, |news|) ==> FreshSoFar(s, p, to, news + [page], free)
  {
    forall d: nat | Below(s, p, |news| + 1, d) ensures d < |news| ==> Below(s, p, |news|, d) {}
  }

  lemma FirstLoopDone(s: Mm, p: nat, to: nat, mem: seq<Frame>)
    requires Shape(s) && Separate(s) && p in s.cr3 && to in s.free
    requires ChildMarked(s, p, to, s.size, mem)
    ensures ParentSplit(s, p, to, [], mem)
  {
    assert forall d: nat | HasTable(s, p, d) :: Below(s, p, s.size, d);
    assert !IsOldTable(s, p, s.size, s.cr3[p]);
  }

  lemma NewTablesGrow(s: Mm, p: nat, news: seq<nat>, page: nat, f: nat)
    requires Shape(s)
    ensures IsNewTable(s, p, news, f) ==> IsNewTable(s, p, news + [page], f)
  {
    if d: nat :| Below(s, p, |news|, d) && f == news[d] {
      assert Below(s, p, |news| + 1, d) && f == (news + [page])[d];
    }
  }

  lemma ParentSplitStep(s: Mm, p: nat, to: nat, news: seq<nat>, free: set<nat>, page: nat,
                        mem: seq<Frame>, mem': seq<Frame>)
    requires Shape(s) && Separate(s) && p in s.cr3 && |news| < s.size
    requires FreshSoFar(s, p, to, news, free)
    requires ParentSplit(s, p, to, news, mem)
    requires if HasTable(s, p, |news|) then
        var copy := CowTable(s.mem[TableFrame(s, p, |news|)]);
        page in free && mem' == mem[page := copy][s.cr3[p] := mem[s.cr3[p]][|news| := ParentEntry(s.mem[s.cr3[p]][|news|], page)]]
      else mem' == mem
    ensures FreshSoFar(s, p, to, news + [page], if HasTable(s, p, |news|) then free - {page} else free)
    ensures ParentSplit(s, p, to, news + [page], mem')
  {
    var i, news' := |news|, news + [page];
    FreshStep(s, p, to, news, free, page);
    forall d: nat | Below(s, p, i + 1, d)
      ensures mem'[news'[d]] == CowTable(s.mem[TableFrame(s, p, d)])
    {
      if d < i { assert Below(s, p, i, d); }
    }
    forall f | 0 <= f < |s.mem| && f != to && f != s.cr3[p] && !IsOldTable(s, p, s.size, f) && !IsNewTable(s, p, news', f)
      ensures mem'[f] == s.mem[f]
    {
      NewTablesGrow(s, p, news, page, f);
      if HasTable(s, p, i) { assert Below(s, p, i + 1, i); }
    }
  }

  // ---------------------------------------------------------------------------------
  // The reference counts and the uses of frames during fork
  // ---------------------------------------------------------------------------------

  /** Some present entry among the first n of table e maps frame f. */
  ghost predicate Marks(e: Frame, n: nat, f: nat)
    requires n <= |e|
  {
    exists t :: 0 <= t < n && e[t].present && e[t].frame == f
  }

  /** How many of the first n entries of table e are present and map frame f. */
  ghost function Occurrences(e: Frame, n: nat, f: nat): nat
    requires n <= |e|
  {
    if n == 0 then 0 else Occurrences(e, n - 1, f) + if e[n - 1].present && e[n - 1].frame == f then 1 else 0
  }

  /** A counter after n increments, each in the width of a char. */
  ghost function Raised(count: int, n: nat): int {
    if n == 0 then count else ToChar(count + n)
  }

  lemma {:induction false} OccurrencesMarked(e: Frame, n: nat, f: nat)
    requires n <= |e| && PresentDistinct(e)
    ensures Occurrences(e, n, f) == if Marks(e, n, f) then 1 else 0
  {
    if n > 0 {
      OccurrencesMarked(e, n - 1, f);
      assert Marks(e, n, f) <==> Marks(e, n - 1, f) || (e[n - 1].present && e[n - 1].frame == f);
    }
  }

  ghost predicate PresentDistinct(e: Frame) {
    forall t, t' | 0 <= t < t' < |e| && e[t].present && e[t'].present :: e[t].frame != e[t'].frame
  }

  ghost predicate MarkedBelow(s: Mm, p: nat, i: nat, f: nat)
    requires Shape(s)
  {
    exists x :: x in Entries(s) && x.pid == p && x.d < i && Entries(s)[x].frame == f
  }

  ghost predicate CountsRaised(s: Mm, p: nat, i: nat, counts: seq<int>)
    requires Shape(s)
  {
    && |counts| == |s.counts|
    && forall f | 0 <= f < |s.counts| && s.role[f] == Page ::
         counts[f] == s.counts[f] + if MarkedBelow(s, p, i, f) then 1 else 0
  }

  lemma TableEntries(s: Mm, p: nat, i: nat, t: nat)
    requires Inv(s) && HasTable(s, p, i) && t < s.size
    ensures var table := s.mem[TableFrame(s, p, i)]; var x := Slot(p, i, t);
      (x in Entries(s) <==> table[t].present) && (x in Entries(s) ==> Entries(s)[x] == table[t])
  {
    assert Maps(s, p, i, t) <==> s.mem[TableFrame(s, p, i)][t].present;
  }

  lemma TableMarks(s: Mm, p: nat, i: nat)
    requires Inv(s) && HasTable(s, p, i)
    ensures PresentDistinct(s.mem[TableFrame(s, p, i)])
    ensures forall f: nat :: Marks(s.mem[TableFrame(s, p, i)], s.size, f) ==>
      f < |s.mem| && s.role[f] == Page && MarkedBelow(s, p, i + 1, f) && !MarkedBelow(s, p, i, f)
    ensures forall f: nat :: MarkedBelow(s, p, i + 1, f) <==>
      MarkedBelow(s, p, i, f) || Marks(s.mem[TableFrame(s, p, i)], s.size, f)
  {
    var e, table := Entries(s), s.mem[TableFrame(s, p, i)];
    forall t: nat | t < s.size && table[t].present ensures Slot(p, i, t) in e && e[Slot(p, i, t)] == table[t] {
      TableEntries(s, p, i, t);
    }
    MarksSplit(s, p, i);
  }

  lemma MarksSplit(s: Mm, p: nat, i: nat)
    requires Inv(s) && HasTable(s, p, i)
    ensures forall f: nat :: MarkedBelow(s, p, i + 1, f) <==>
      MarkedBelow(s, p, i, f) || Marks(s.mem[TableFrame(s, p, i)], s.size, f)
  {
    var e, table := Entries(s), s.mem[TableFrame(s, p, i)];
    forall f: nat | MarkedBelow(s, p, i + 1, f) ensures MarkedBelow(s, p, i, f) || Marks(table, s.size, f) {
      var x :| x in e && x.pid == p && x.d < i + 1 && e[x].frame == f;
      if x.d == i {
        TableEntries(s, p, i, x.t);
      }
    }
    forall f: nat | Marks(table, s.size, f) ensures MarkedBelow(s, p, i + 1, f) {
      var t: nat :| t < s.size && table[t].present && table[t].frame == f;
      TableEntries(s, p, i, t);
    }
  }

  lemma NoTableMarks(s: Mm, p: nat, i: nat)
    requires Shape(s) && !HasTable(s, p, i)
    ensures forall f: nat :: MarkedBelow(s, p, i + 1, f) <==> MarkedBelow(s, p, i, f)
  {
    forall x | x in Entries(s) && x.pid == p && x.d < i + 1 ensures x.d < i {
      assert Maps(s, x.pid, x.d, x.t);
    }
  }

  lemma CowTwice(e: Frame)
    ensures CowTable(CowTable(e)) == CowTable(e)
  {
  }

  lemma CowMarks(e: Frame, f: nat)
    ensures Marks(CowTable(e), |e|, f) <==> Marks(e, |e|, f)
  {
    if t :| 0 <= t < |e| && e[t].present && e[t].frame == f {
      assert CowTable(e)[t].present && CowTable(e)[t].frame == f;
    }
  }

  /** The old table of entry i, already write-protected, can be counted without wrapping. */
  lemma TableCountable(s: Mm, p: nat, i: nat, counts: seq<int>, table: Frame)
    requires Inv(s) && HasTable(s, p, i) && |s.cr3| < NR_PROC
    requires CountsRaised(s, p, i, counts) && table == CowTable(s.mem[TableFrame(s, p, i)])
    ensures PresentDistinct(table)
    ensures forall f: nat | Marks(table, s.size, f) ::
      f < |counts| && s.role[f] == Page && 0 <= counts[f] < 127
  {
    TableMarks(s, p, i);
    forall f: nat | Marks(table, s.size, f) ensures f < |counts| && s.role[f] == Page && 0 <= counts[f] < 127 {
      assert Marks(s.mem[TableFrame(s, p, i)], s.size, f);
      CountBound(s, f);
    }
  }

  lemma CountStep(s: Mm, p: nat, i: nat, counts: seq<int>, table: Frame, counts': seq<int>)
    requires Inv(s) && HasTable(s, p, i) && table == CowTable(s.mem[TableFrame(s, p, i)])
    requires CountsRaised(s, p, i, counts) && |counts'| == |counts|
    requires forall f: nat | f < |counts| && s.role[f] == Page ::
      counts'[f] == counts[f] + if Marks(table, s.size, f) then 1 else 0
    ensures CountsRaised(s, p, i + 1, counts')
  {
    TableMarks(s, p, i);
    forall f: nat ensures Marks(table, s.size, f) <==> Marks(s.mem[TableFrame(s, p, i)], s.size, f) {
      CowMarks(s.mem[TableFrame(s, p, i)], f);
    }
  }

  /** The use of frame f after the fork. */
  ghost function ForkedRole(s: Mm, p: nat, c: nat, to: nat, news: seq<nat>, f: nat): Role
    requires Shape(s) && f < |s.role|
  {
    if f == to then DirOf(c)
    else if d: nat :| HasTable(s, p, d) && TableFrame(s, p, d) == f then TableOf(c, d)
    else if d: nat :| Below(s, p, |news|, d) && news[d] == f then TableOf(p, d)
    else s.role[f]
  }

  lemma LoopsShape(s: Mm, p: nat, to: nat, news: seq<nat>, mem: seq<Frame>)
    requires Inv(s) && p in s.cr3 && |news| == s.size
    requires to in s.free && forall d: nat | Below(s, p, |news|, d) :: news[d] in s.free
    requires ParentSplit(s, p, to, news, mem)
    ensures |mem| == |s.mem| && forall f | 0 <= f < |mem| :: |mem[f]| == s.size
  {
    forall f | 0 <= f < |mem| ensures |mem[f]| == s.size {
      if IsOldTable(s, p, s.size, f) {
        var d: nat :| Below(s, p, s.size, d) && f == TableFrame(s, p, d);
      } else if IsNewTable(s, p, news, f) {
        var d: nat :| Below(s, p, |news|, d) && f == news[d];
      }
    }
  }

  /** The two loops together are a fork. */
  lemma LoopsFork(s: Mm, p: nat, c: nat, to: nat, news: seq<nat>, s': Mm)
    requires Inv(s) && p in s.cr3 && c !in s.cr3 && |news| == s.size
    requires Shape(s') && s'.size == s.size && s'.cr3 == s.cr3[c := to]
    requires FreshSoFar(s, p, to, news, s'.free)
    requires ParentSplit(s, p, to, news, s'.mem)
    requires CountsRaised(s, p, s.size, s'.counts)
    requires |s'.role| == |s.role| && forall f | 0 <= f < |s.role| :: s'.role[f] == ForkedRole(s, p, c, to, news, f)
    ensures Forked(s, p, c, to, news, s')
  {
    LoopsFresh(s, p, to, news, s'.free);
    LoopsMem(s, p, to, news, s');
    LoopsBooks(s, p, c, to, news, s');
  }

  lemma LoopsFresh(s: Mm, p: nat, to: nat, news: seq<nat>, free: set<nat>)
    requires Shape(s) && |news| == s.size && FreshSoFar(s, p, to, news, free)
    ensures Fresh(s, p, to, news)
  {
    assert forall d: nat | HasTable(s, p, d) :: Below(s, p, |news|, d);
  }

  lemma LoopsMem(s: Mm, p: nat, to: nat, news: seq<nat>, s': Mm)
    requires Shape(s) && Separate(s) && p in s.cr3 && Fresh(s, p, to, news)
    requires Shape(s') && s'.size == s.size
    requires ParentSplit(s, p, to, news, s'.mem)
    ensures ForkedMem(s, p, to, news, s')
  {
    assert forall d: nat | HasTable(s, p, d) :: Below(s, p, |news|, d);
    forall f | 0 <= f < |s.mem| && Elsewhere(s, p, to, news, f) && s.role[f] != DirOf(p)
      ensures s'.mem[f] == s.mem[f]
    {
      assert !IsOldTable(s, p, s.size, f) && !IsNewTable(s, p, news, f);
    }
  }

  lemma LoopsBooks(s: Mm, p: nat, c: nat, to: nat, news: seq<nat>, s': Mm)
    requires Inv(s) && p in s.cr3 && c !in s.cr3 && Fresh(s, p, to, news)
    requires Shape(s') && s'.size == s.size && |s'.mem| == |s.mem| && s'.cr3 == s.cr3[c := to]
    requires FreshSoFar(s, p, to, news, s'.free)
    requires CountsRaised(s, p, s.size, s'.counts)
    requires |s'.role| == |s.role| && forall f | 0 <= f < |s.role| :: s'.role[f] == ForkedRole(s, p, c, to, news, f)
    ensures ForkedBooks(s, p, c, to, news, s')
  {
    forall d: nat | HasTable(s, p, d)
      ensures news[d] !in s'.free
      ensures s'.role[TableFrame(s, p, d)] == TableOf(c, d)
      ensures s'.role[news[d]] == TableOf(p, d)
    {
      assert Below(s, p, |news|, d);
      assert s'.role[TableFrame(s, p, d)] == ForkedRole(s, p, c, to, news, TableFrame(s, p, d));
      assert s'.role[news[d]] == ForkedRole(s, p, c, to, news, news[d]);
    }
    forall f | 0 <= f < |s.mem| && s.role[f] == Page
      ensures MarkedBelow(s, p, s.size, f) <==> MapsFrame(Entries(s), p, f)
    {
      assert forall x | x in Entries(s) :: x.d < s.size;
    }
  }

  ghost function RolesAfterFork(s: Mm, p: nat, c: nat, to: nat, news: seq<nat>): seq<Role>
    requires Shape(s)
  {
    seq(|s.role|, f requires 0 <= f < |s.role| => ForkedRole(s, p, c, to, news, f))
  }

  lemma NothingRaised(s: Mm, p: nat, to: nat)
    requires Inv(s) && to in s.free
    ensures CountsRaised(s, p, 0, s.counts[to := 1])
  {
  }

  /** After both loops the child's memory is a copy of the parent's. */
  lemma LoopsCopy(s: Mm, p: nat, c: nat, to: nat, news: seq<nat>, s': Mm)
    requires Inv(s) && p in s.cr3 && c !in s.cr3 && |news| == s.size
    requires FreshSoFar(s, p, to, news, s'.free)
    requires ParentSplit(s, p, to, news, s'.mem)
    requires CountsRaised(s, p, s.size, s'.counts)
    requires s'.size == s.size && s'.cr3 == s.cr3[c := to] && s'.role == RolesAfterFork(s, p, c, to, news)
    ensures Inv(s') && Views(s') == Views(s)[c := Views(s)[p]]
    ensures SharesEntries(Entries(s), p, c, Entries(s'))
  {
    LoopsShape(s, p, to, news, s'.mem);
    LoopsFork(s, p, c, to, news, s');
    ForkedEntries(s, p, c, to, news, s');
    ForkCopies(s, p, c, to, news, s');
  }

  /** The number of user page tables of process p among the first i of its directory. */
  ghost function NumTables(s: Mm, p: nat, i: nat): nat
    requires Shape(s)
  {
    if i == 0 then 0 else NumTables(s, p, i - 1) + if HasTable(s, p, i - 1) then 1 else 0
  }

  lemma {:induction false} TablesGrow(s: Mm, p: nat, i: nat, j: nat)
    requires Shape(s) && i <= j
    ensures NumTables(s, p, i) <= NumTables(s, p, j)
    decreases j
  {
    if i < j {
      TablesGrow(s, p, i, j - 1);
    }
  }

  lemma {:induction false} SameNumber(s: Mm, p: nat, s': Mm, p': nat, i: nat)
    requires Shape(s) && Shape(s') && forall d: nat | d < i :: HasTable(s', p', d) == HasTable(s, p, d)
    ensures NumTables(s', p', i) == NumTables(s, p, i)
  {
    if i > 0 {
      SameNumber(s, p, s', p', i - 1);
    }
  }

  ghost function TablesOf(s: Mm): map<nat, nat>
    requires Shape(s)
  {
    map p | p in s.cr3 :: NumTables(s, p, s.size)
  }

  lemma SameTables(s: Mm, s': Mm)
    requires Shape(s) && Shape(s') && s'.size == s.size && s'.cr3 == s.cr3
    requires forall p: nat, d: nat :: HasTable(s', p, d) == HasTable(s, p, d)
    ensures TablesOf(s') == TablesOf(s)
  {
    forall p | p in s.cr3 ensures NumTables(s', p, s.size) == NumTables(s, p, s.size) {
      SameNumber(s, p, s', p, s.size);
    }
  }

  /** Both processes have as many tables as the parent had, and the others what they had. */
  lemma LoopsTables(s: Mm, p: nat, c: nat, to: nat, news: seq<nat>, s': Mm)
    requires Inv(s) && p in s.cr3 && c !in s.cr3 && |news| == s.size && Shape(s')
    requires FreshSoFar(s, p, to, news, s'.free)
    requires ParentSplit(s, p, to, news, s'.mem)
    requires CountsRaised(s, p, s.size, s'.counts)
    requires s'.size == s.size && s'.cr3 == s.cr3[c := to] && s'.role == RolesAfterFork(s, p, c, to, news)
    ensures TablesOf(s') == TablesOf(s)[c := TablesOf(s)[p]]
  {
    LoopsFork(s, p, c, to, news, s');
    hide TablesOf, Inv;
    ForkedTables(s, p, c, to, news, s');
  }

  lemma ForkedTables(s: Mm, p: nat, c: nat, to: nat, news: seq<nat>, s': Mm)
    requires Forked(s, p, c, to, news, s')
    ensures Shape(s) && p in TablesOf(s) && TablesOf(s') == TablesOf(s)[c := TablesOf(s)[p]]
  {
    assert s'.cr3 == s.cr3[c := to] && s'.size == s.size;
    hide Forked, Shape, NumTables;
    forall q | q in s'.cr3 ensures NumTables(s', q, s.size) == NumTables(s, if q == c then p else q, s.size) {
      ForkedNumber(s, p, c, to, news, s', q);
    }
  }

  lemma ForkedNumber(s: Mm, p: nat, c: nat, to: nat, news: seq<nat>, s': Mm, q: nat)
    requires Forked(s, p, c, to, news, s')
    ensures NumTables(s', q, s.size) == NumTables(s, if q == c then p else q, s.size)
  {
    forall d: nat ensures HasTable(s', q, d) == HasTable(s, if q == c then p else q, d) {
      if q == p || q == c {
        ForkedWalk(s, p, c, to, news, s', d);
      } else {
        ForkedOthers(s, p, c, to, news, s', q, d);
      }
    }
    SameNumber(s, if q == c then p else q, s', q, s.size);
  }

  // ---------------------------------------------------------------------------------
  // The machine
  // ---------------------------------------------------------------------------------

  /** The text and read-only data segments of a process, as byte addresses. */
  datatype Image = Image(textStart: nat, textSize: nat, rodataStart: nat, rodataSize: nat)

  datatype ForkResult = ForkDone | NoMemory | ForkPanic

  /** How a write by a user process ends. */
  datatype WriteResult = WriteDone | Segv | WritePanic | KernelAddress

  function ByteAddress(size: nat, a: Addr): nat {
    4 * (size * (size * a.d + a.t) + a.w)
  }

  /** page_set_writable finds the indices of a word in its byte address again. With 1024 words
      to a frame the divisors are 0x400000 and 0x1000. */
  lemma AddressIsWalk(n: nat, a: Addr)
    requires a.d < n && a.t < n && a.w < n
    ensures 4 * n * n > 0
    ensures var b := ByteAddress(n, a);
      b / (4 * n * n) == a.d && b / (4 * n) % n == a.t && b / 4 % n == a.w && b % 4 == 0
    ensures n == 1024 ==> ByteAddress(n, a) == 0x40_0000 * a.d + 0x1000 * a.t + 4 * a.w
  {
    var b := ByteAddress(n, a);
    var page := n * a.d + a.t;
    var word := n * page + a.w;
    Bytes.DivisionIsUnique(page, n, a.d, a.t);
    Bytes.DivisionIsUnique(word, n, page, a.w);
    Bytes.DivisionIsUnique(b, 4, word, 0);
    Bytes.DivideInSteps(b, 4, n);
    Bytes.DivideInSteps(b, 4 * n, n);
  }

  /** start <= addr < start + length in 32-bit arithmetic. */
  predicate InSegment(addr: nat, start: nat, length: nat) {
    addr >= start && addr < (start + length) % 0x1_0000_0000
  }

  /** The addresses the page-fault handler refuses to make writable. */
  predicate ReadOnly(image: Image, addr: nat) {
    || InSegment(addr, image.textStart, image.textSize)
    || (image.rodataSize > 0 && InSegment(addr, image.rodataStart, image.rodataSize))
  }

  /** The test is right for every address exactly if the segment ends below 2^32. */
  lemma SegmentIs(start: nat, length: nat)
    requires start < 0x1_0000_0000 && length < 0x1_0000_0000
    ensures (forall addr: nat | addr < 0x1_0000_0000 :: InSegment(addr, start, length) <==> start <= addr < start + length)
      <==> start + length < 0x1_0000_0000
  {
    if start + length >= 0x1_0000_0000 {
      assert !InSegment(start, start, length);
    }
  }

  /** Text, and read-only data if there are any. */
  lemma ReadOnlyIs(image: Image, addr: nat)
    requires image.textStart + image.textSize < 0x1_0000_0000 && image.rodataStart + image.rodataSize < 0x1_0000_0000
    ensures ReadOnly(image, addr) <==>
      || image.textStart <= addr < image.textStart + image.textSize
      || image.rodataStart <= addr < image.rodataStart + image.rodataSize
  {
  }

  // ---------------------------------------------------------------------------------
  // Runs
  // ---------------------------------------------------------------------------------

  datatype Op = ForkOp(parent: nat, child: nat) | WriteOp(pid: nat, a: Addr, v: Word)

  /** Refused: the kernel turned the system call or the write down. */
  datatype Outcome = Completed | Refused

  /** The same step where fork really copies memory and a write changes one process only. */
  function CopyingStep(v: Spaces, op: Op, o: Outcome): Spaces {
    if o == Refused then v
    else match op
      case ForkOp(p, c) => if p in v then v[c := v[p]] else v
      case WriteOp(p, a, w) => if p in v && a in v[p] then v[p := v[p][a := w]] else v
  }

  function CopyingRun(v: Spaces, ops: seq<Op>, outs: seq<Outcome>): Spaces
    requires |outs| <= |ops|
  {
    if outs == [] then v
    else CopyingStep(CopyingRun(v, ops[..|outs| - 1], outs[..|outs| - 1]), ops[|outs| - 1], outs[|outs| - 1])
  }

  lemma CopyingRunExtend(v: Spaces, ops: seq<Op>, outs: seq<Outcome>, o: Outcome)
    requires |outs| < |ops|
    ensures CopyingRun(v, ops, outs + [o]) == CopyingStep(CopyingRun(v, ops, outs), ops[|outs|], o)
  {
    var outs' := outs + [o];
    assert outs'[..|outs'| - 1] == outs;
    CopyingRunPrefix(v, ops, ops[..|outs|], outs);
  }

  lemma {:induction false} CopyingRunPrefix(v: Spaces, ops: seq<Op>, ops': seq<Op>, outs: seq<Outcome>)
    requires |outs| <= |ops| && |outs| <= |ops'| && ops[..|outs|] == ops'[..|outs|]
    ensures CopyingRun(v, ops, outs) == CopyingRun(v, ops', outs)
  {
    if outs != [] {
      var n := |outs| - 1;
      assert ops[n] == ops[..|outs|][n] == ops'[..|outs|][n] == ops'[n];
      assert ops[..n] == ops[..|outs|][..n] == ops'[..|outs|][..n] == ops'[..n];
    }
  }

  /** Every word of the page is text or read-only data. */
  predicate ReadOnlyPage(image: Image, n: nat, d: nat, t: nat) {
    forall w | 0 <= w < n :: ReadOnly(image, ByteAddress(n, Addr(d, t, w)))
  }

  /** Pages that are read-only as a whole are mapped without write permission. */
  ghost predicate Protected(e: map<Slot, Word>, n: nat, images: map<nat, Image>) {
    forall x :: x in e && x.pid in images && ReadOnlyPage(images[x.pid], n, x.d, x.t) ==> !e[x].writable
  }

  predicate Extends(m: map<nat, Image>, m': map<nat, Image>) {
    forall p | p in m :: p in m' && m'[p] == m[p]
  }

  predicate InRange(op: Op, n: nat) {
    match op
    case ForkOp(p, _) => p != 0
    case WriteOp(_, a, _) => a.d < n && a.t < n && a.w < n
  }

  /** What the steps of a run depend on: the memory each process sees, the entries, how many
      page tables each process has, and the frames that are free. */
  datatype World = World(size: nat, spaces: Spaces, entries: map<Slot, Word>, tables: map<nat, nat>, free: set<nat>)

  ghost function WorldOf(s: Mm): World
    requires Viewable(s)
  {
    World(s.size, Views(s), Entries(s), TablesOf(s), s.free)
  }

  /** Other entries map the frame of entry x. */
  ghost predicate Shared(e: map<Slot, Word>, x: Slot)
    requires x in e
  {
    |Owners(e, e[x].frame)| > 1
  }

  /** Entry x has to be split, and there is no frame for that. */
  ghost predicate MustSplit(k: World, x: Slot) {
    x in k.entries && Shared(k.entries, x) && k.free == {}
  }

  /** The write has to split a shared frame, and there is no other. */
  ghost predicate SplitFails(k: World, image: Image, pid: nat, a: Addr) {
    && pid in k.spaces && a in k.spaces[pid] && !ReadOnly(image, ByteAddress(k.size, a))
    && MustSplit(k, Slot(pid, a.d, a.t))
  }

  /** The kernel runs out of memory halfway and panics. */
  ghost predicate Panics(k: World, images: map<nat, Image>, op: Op) {
    match op
    case ForkOp(p, c) =>
      && p in k.spaces && c !in k.spaces && |k.spaces| < NR_PROC
      && p in k.tables && 1 <= |k.free| <= k.tables[p]
    case WriteOp(p, a, _) => p in images && SplitFails(k, images[p], p, a)
  }

  /** A fork is refused exactly if there is no such parent, the child exists, the process
      table is full, or no frame is free. A write is refused only where the process has no
      memory or may not write, and always outside its memory and on a wholly read-only page. */
  ghost predicate Justified(k: World, images: map<nat, Image>, op: Op, o: Outcome) {
    match op
    case ForkOp(p, c) =>
      o == Refused <==> p !in k.spaces || c in k.spaces || |k.spaces| >= NR_PROC || k.free == {}
    case WriteOp(p, a, _) =>
      if p !in k.spaces || a !in k.spaces[p] then o == Refused
      else
        && p in images
        && (o == Refused ==> ReadOnly(images[p], ByteAddress(k.size, a)))
        && (ReadOnlyPage(images[p], k.size, a.d, a.t) ==> o == Refused)
  }

  /** Entry x became writable; if it shared its frame, a free frame took that one's place. */
  ghost predicate Unshared(k: World, x: Slot, k': World) {
    && x in k.entries
    && if Shared(k.entries, x) then
         exists f | f in k.free ::
           k'.free == k.free - {f} && k'.entries == k.entries[x := k.entries[x].(frame := f, writable := true)]
       else k'.free == k.free && k'.entries == k.entries[x := k.entries[x].(writable := true)]
  }

  /** What a step does to the page tables. One that is refused does nothing. A fork takes a
      frame for the child's directory and one for each of the parent's tables. */
  ghost predicate Remaps(k: World, op: Op, o: Outcome, k': World) {
    if o == Refused then k' == k
    else match op
      case ForkOp(p, c) =>
        && p in k.tables && k'.tables == k.tables[c := k.tables[p]]
        && k'.free <= k.free && |k.free| == |k'.free| + 1 + k.tables[p]
        && SharesEntries(k.entries, p, c, k'.entries)
      case WriteOp(p, a, _) => k'.tables == k.tables && Unshared(k, Slot(p, a.d, a.t), k')
  }

  lemma ForkProtects(e: map<Slot, Word>, n: nat, images: map<nat, Image>, p: nat, c: nat, e': map<Slot, Word>)
    requires Protected(e, n, images) && p in images && c !in images && SharesEntries(e, p, c, e')
    ensures Protected(e', n, images[c := images[p]])
  {
    forall x | x in e' && x.pid in images[c := images[p]] && ReadOnlyPage(images[c := images[p]][x.pid], n, x.d, x.t)
      ensures !e'[x].writable
    {
      assert x.pid != p && x.pid != c ==> x.(pid := x.pid) == x;
    }
  }

  lemma GrantProtects(k: World, images: map<nat, Image>, x: Slot, w: nat, k': World)
    requires Protected(k.entries, k.size, images) && x.pid in images && w < k.size && Unshared(k, x, k')
    requires ReadOnly(images[x.pid], ByteAddress(k.size, Addr(x.d, x.t, w))) ==> k.entries[x].writable
    ensures Protected(k'.entries, k.size, images)
  {
  }

  lemma ProcessesOf(s: Mm)
    requires Viewable(s)
    ensures Views(s).Keys == s.cr3.Keys && |Views(s)| == |s.cr3|
  {
    assert Views(s).Keys == s.cr3.Keys;
    assert |Views(s)| == |Views(s).Keys| && |s.cr3| == |s.cr3.Keys|;
  }

  ghost predicate Ready(k: World, images: map<nat, Image>) {
    && (forall p :: p in images <==> p in k.spaces)
    && Protected(k.entries, k.size, images)
  }

  /** One step of the kernel is one step of the machine that copies. */
  ghost predicate Advances(k: World, images: map<nat, Image>, op: Op, o: Outcome, k': World, images': map<nat, Image>) {
    && Ready(k', images') && Extends(images, images')
    && Follows(k, images, op, o, k')
  }

  ghost predicate Follows(k: World, images: map<nat, Image>, op: Op, o: Outcome, k': World) {
    && k'.size == k.size && k'.spaces == CopyingStep(k.spaces, op, o)
    && Justified(k, images, op, o) && !Panics(k, images, op) && Remaps(k, op, o, k')
  }

  ghost predicate Wrote(k: World, image: Image, pid: nat, a: Addr, v: Word, k': World) {
    && k'.size == k.size && a.w < k.size
    && pid in k.spaces && a in k.spaces[pid]
    && k'.spaces == k.spaces[pid := k.spaces[pid][a := v]] && k'.tables == k.tables
    && Unshared(k, Slot(pid, a.d, a.t), k')
    && (ReadOnly(image, ByteAddress(k.size, a)) ==> k.entries[Slot(pid, a.d, a.t)].writable)
  }

  ghost predicate Denied(k: World, image: Image, pid: nat, a: Addr, k': World) {
    && k' == k && pid in k.spaces
    && (a !in k.spaces[pid] || ReadOnly(image, ByteAddress(k.size, a)))
  }

  /** ks are the states a run went through, one before each step that it took and one after
      the last. */
  ghost predicate Trace(ks: seq<World>, images: map<nat, Image>, ops: seq<Op>, outs: seq<Outcome>) {
    && |ks| == |outs| + 1 && |outs| <= |ops|
    && forall j | 0 <= j < |outs| :: Follows(ks[j], images, ops[j], outs[j], ks[j + 1])
  }

  /** Images that appear later change no judgement. */
  lemma FollowsExtends(k: World, images: map<nat, Image>, op: Op, o: Outcome, k': World, images': map<nat, Image>)
    requires Follows(k, images, op, o, k') && Extends(images, images')
    ensures Follows(k, images', op, o, k')
  {
  }

  lemma TraceNext(ks: seq<World>, images: map<nat, Image>, ops: seq<Op>, outs: seq<Outcome>, o: Outcome,
                  k': World, images': map<nat, Image>)
    requires Trace(ks, images, ops, outs) && |outs| < |ops|
    requires Advances(ks[|outs|], images, ops[|outs|], o, k', images')
    ensures Trace(ks + [k'], images', ops, outs + [o])
  {
    var ks', outs' := ks + [k'], outs + [o];
    forall j | 0 <= j < |outs'|
      ensures Follows(ks'[j], images', ops[j], outs'[j], ks'[j + 1])
    {
      FollowsExtends(ks'[j], images, ops[j], outs'[j], ks'[j + 1], images');
    }
  }

  /** In every run each process reads what it would read had every fork copied all memory. */
  lemma {:induction false} TraceCopies(ks: seq<World>, images: map<nat, Image>, ops: seq<Op>, outs: seq<Outcome>)
    requires Trace(ks, images, ops, outs)
    ensures ks[|outs|].size == ks[0].size && ks[|outs|].spaces == CopyingRun(ks[0].spaces, ops, outs)
    decreases |outs|
  {
    if outs != [] {
      var n := |outs| - 1;
      assert Trace(ks[..n + 1], images, ops, outs[..n]);
      TraceCopies(ks[..n + 1], images, ops, outs[..n]);
      CopyingRunExtend(ks[0].spaces, ops, outs[..n], outs[n]);
      assert outs[..n] + [outs[n]] == outs;
    }
  }

  /** A write to a page of the text is refused and does nothing, whatever the page tables say. */
  lemma TextIsSafe(k: World, images: map<nat, Image>, p: nat, a: Addr, v: Word, o: Outcome, k': World)
    requires Follows(k, images, WriteOp(p, a, v), o, k')
    requires p in images && a.d < k.size && a.t < k.size && a.w < k.size
    requires images[p].textStart + images[p].textSize < 0x1_0000_0000
    requires images[p].textStart <= ByteAddress(k.size, Addr(a.d, a.t, 0))
    requires ByteAddress(k.size, Addr(a.d, a.t, 0)) + 4 * k.size <= images[p].textStart + images[p].textSize
    ensures o == Refused && k' == k
  {
    forall w | 0 <= w < k.size
      ensures ReadOnly(images[p], ByteAddress(k.size, Addr(a.d, a.t, w)))
    {
      assert ByteAddress(k.size, Addr(a.d, a.t, w)) == ByteAddress(k.size, Addr(a.d, a.t, 0)) + 4 * w;
    }
  }

  /** A process with one page of text, at 0x400000... */
  ghost predicate HasText(k: World, images: map<nat, Image>) {
    && k.size == 1024 && images == map[1 := Image(0x40_0000, 0x1000, 0, 0)] && Ready(k, images)
    && 1 in k.spaces && Addr(1, 0, 0) in k.spaces[1]
  }

  lemma SmallWorld(images: map<nat, Image>)
    requires images == map[1 := Image(0x40_0000, 0x1000, 0, 0)]
    ensures Inv(SmallMachine()) && HasText(WorldOf(SmallMachine()), images)
  {
    InvIsPossible();
    SmallEntries();
    TextMapped(SmallMachine());
    DataIsNoText(images);
    hide Inv, Viewable, Views, Entries, TablesOf, SmallMachine, Shape, Protected;
  }

  lemma TextMapped(s: Mm)
    requires Inv(s) && s == SmallMachine() && Slot(1, 1, 0) in Entries(s)
    ensures s.size == 1024 && Views(s).Keys == {1} && Addr(1, 0, 0) in Views(s)[1]
  {
    assert s.cr3.Keys == {1} && s.size == 1024;
    hide Inv, Views, Entries, SmallMachine, Shape;
    ProcessesOf(s);
    MappedAddr(s, Slot(1, 1, 0), 0);
  }

  lemma DataIsNoText(images: map<nat, Image>)
    requires images == map[1 := Image(0x40_0000, 0x1000, 0, 0)]
    ensures Protected(map[Slot(1, 1, 0) := Word(2, true, false, true, 0), Slot(1, 1, 1) := Word(3, true, true, true, 0)], 1024, images)
  {
    assert ByteAddress(1024, Addr(1, 1, 0)) == 0x40_1000;
    assert !ReadOnly(images[1], ByteAddress(1024, Addr(1, 1, 0)));
  }

  /** ...and the only way a run goes that writes there: the write is refused. */
  lemma TextRun(k: World, images: map<nat, Image>, v: Word, ks: seq<World>, outs: seq<Outcome>)
    requires HasText(k, images) && |outs| == 1 && |ks| == 2 && ks[0] == k
    ensures ByteAddress(1024, Addr(1, 0, 0)) == 0x40_0000
    ensures Trace(ks, images, [WriteOp(1, Addr(1, 0, 0), v)], outs) <==> outs == [Refused] && ks[1] == k
  {
    var a := Addr(1, 0, 0);
    if Trace(ks, images, [WriteOp(1, a, v)], outs) {
      assert Follows(ks[0], images, WriteOp(1, a, v), outs[0], ks[1]);
      TextIsSafe(k, images, 1, a, v, outs[0], ks[1]);
    }
    DenialAdvances(k, images, 1, a, v, k);
  }

  lemma WriteAdvances(k: World, images: map<nat, Image>, pid: nat, a: Addr, v: Word, k': World)
    requires Ready(k, images) && pid in images && Wrote(k, images[pid], pid, a, v, k')
    ensures Advances(k, images, WriteOp(pid, a, v), Completed, k', images)
  {
    GrantProtects(k, images, Slot(pid, a.d, a.t), a.w, k');
    assert a == Addr(a.d, a.t, a.w);
  }

  lemma DenialAdvances(k: World, images: map<nat, Image>, pid: nat, a: Addr, v: Word, k': World)
    requires Ready(k, images) && pid in images && Denied(k, images[pid], pid, a, k')
    ensures Advances(k, images, WriteOp(pid, a, v), Refused, k', images)
  {
  }

  /** The child sees what the parent sees. */
  ghost predicate ForkedTo(k: World, p: nat, c: nat, k': World) {
    && k'.size == k.size && p in k.spaces && k'.spaces == k.spaces[c := k.spaces[p]]
    && Remaps(k, ForkOp(p, c), Completed, k')
  }

  lemma ForkAdvances(k: World, images: map<nat, Image>, p: nat, c: nat, k': World)
    requires Ready(k, images) && p in images && c !in images
    requires |k.spaces| < NR_PROC && ForkedTo(k, p, c, k')
    ensures Advances(k, images, ForkOp(p, c), Completed, k', images[c := images[p]])
    ensures Ready(k', images[c := images[p]])
  {
    ForkProtects(k.entries, k.size, images, p, c, k'.entries);
  }

  lemma StoreKeepsTables(s: Mm, x: Slot, w: nat, v: Word, s': Mm)
    requires Stored(s, x, w, v, s')
    ensures Shape(s') && TablesOf(s') == TablesOf(s)
  {
    PageWriteKeepsTables(s, Entries(s)[x].frame, s.mem[Entries(s)[x].frame][w := v]);
    SameTables(s, s');
  }

  lemma SoleWriter(e: map<Slot, Word>, x: Slot)
    requires WritableIsPrivate(e) && x in e && e[x].writable
    ensures !Shared(e, x) && e[x := e[x].(writable := true)] == e
  {
    assert Owners(e, e[x].frame) == {x};
  }

  lemma ForkRefused(k: World, images: map<nat, Image>, p: nat, c: nat)
    requires Ready(k, images) && (p !in k.spaces || c in k.spaces || |k.spaces| >= NR_PROC || k.free == {})
    ensures !Panics(k, images, ForkOp(p, c)) && Advances(k, images, ForkOp(p, c), Refused, k, images)
  {
  }

  /** What follows from how arch_fork ended. */
  ghost predicate Concluded(k: World, images: map<nat, Image>, p: nat, c: nat, r: ForkResult, k': World) {
    && p in images && c !in images
    && (r == ForkPanic <==> Panics(k, images, ForkOp(p, c)))
    && (r == ForkDone ==>
          Ready(k', images[c := images[p]]) && Advances(k, images, ForkOp(p, c), Completed, k', images[c := images[p]]))
    && (r == NoMemory ==> Ready(k', images) && Advances(k, images, ForkOp(p, c), Refused, k', images))
  }

  lemma ForkConcludes(k: World, images: map<nat, Image>, p: nat, c: nat, r: ForkResult, k': World)
    requires Ready(k, images) && p in k.spaces && p in k.tables && c !in k.spaces && |k.spaces| < NR_PROC
    requires r == ForkPanic <==> 1 <= |k.free| <= k.tables[p]
    requires r == ForkDone ==> ForkedTo(k, p, c, k')
    requires r == NoMemory ==> k.free == {} && k' == k
    ensures Concluded(k, images, p, c, r, k')
  {
    if r == ForkDone {
      ForkAdvances(k, images, p, c, k');
    } else if r == NoMemory {
      ForkRefused(k, images, p, c);
    }
  }

  /** A store straight after its write fault, or through an entry that was writable. */
  lemma StoreAfterFault(s: Mm, image: Image, a: Addr, v: Word, pid: nat, s1: Mm, s': Mm)
    requires Resolved(s, Slot(pid, a.d, a.t), s1) && Stored(s1, Slot(pid, a.d, a.t), a.w, v, s')
    requires pid in s.cr3 && a.d < s.size && a.t < s.size
    requires !ReadOnly(image, ByteAddress(s.size, a))
    ensures Inv(s') && Wrote(WorldOf(s), image, pid, a, v, WorldOf(s'))
  {
    var x := Slot(pid, a.d, a.t);
    StoreIsPrivate(s1, x, a.w, v, s');
    StoreKeepsInv(s1, x, a.w, v, s');
    StoreKeepsTables(s1, x, a.w, v, s');
    MappedAddr(s, x, a.w);
  }

  lemma StoreWithoutFault(s: Mm, image: Image, a: Addr, v: Word, pid: nat, s': Mm)
    requires Stored(s, Slot(pid, a.d, a.t), a.w, v, s')
    requires pid in s.cr3 && a.d < s.size && a.t < s.size
    ensures Inv(s') && Wrote(WorldOf(s), image, pid, a, v, WorldOf(s'))
  {
    var x := Slot(pid, a.d, a.t);
    StoreIsPrivate(s, x, a.w, v, s');
    StoreKeepsInv(s, x, a.w, v, s');
    StoreKeepsTables(s, x, a.w, v, s');
    SoleWriter(Entries(s), x);
    MappedAddr(s, x, a.w);
  }

  /** Memory once the directory entry of x is writable. */
  ghost function DirWritable(s: Mm, x: Slot): seq<Frame>
    requires Shape(s) && x.pid in s.cr3 && x.d < s.size
  {
    var dir := s.cr3[x.pid];
    s.mem[dir := s.mem[dir][x.d := s.mem[dir][x.d].(writable := true)]]
  }

  /** A resolved write fault: nobody's memory changed, and only entry x became writable. */
  ghost predicate Resolved(s: Mm, x: Slot, s': Mm) {
    && Inv(s) && Inv(s') && s'.size == s.size && s'.cr3 == s.cr3
    && Views(s') == Views(s) && TablesOf(s') == TablesOf(s)
    && Unshared(WorldOf(s), x, WorldOf(s'))
    && x.pid in s.cr3 && x.d < s.size && s'.mem[s'.cr3[x.pid]][x.d].writable
  }

  lemma MappedAddr(s: Mm, x: Slot, w: nat)
    requires Inv(s) && x.pid in s.cr3 && x.d < s.size && x.t < s.size && w < s.size
    ensures x in Entries(s) <==> Addr(x.d, x.t, w) in Views(s)[x.pid]
  {
    assert Addr(x.d, x.t, w) in Addrs(s.size);
    assert Slot(x.pid, x.d, x.t) == x;
  }

  lemma RepointedKeepsTables(s: Mm, x: Slot, w: Word, s': Mm)
    requires Repointed(s, x, w, s')
    ensures TablesOf(s') == TablesOf(s)
  {
    forall p: nat, d: nat ensures HasTable(s', p, d) == HasTable(s, p, d) {
      RepointedTables(s, x, w, s', p, d);
    }
    SameTables(s, s');
  }

  lemma SharedIsCounted(s: Mm, x: Slot)
    requires Inv(s) && x in Entries(s)
    ensures x.pid in s.cr3 && x.d < s.size && Entries(s)[x].frame < |s.counts|
    ensures Shared(Entries(s), x) <==> s.counts[Entries(s)[x].frame] > 1
  {
  }

  lemma ClaimResolves(s: Mm, x: Slot, s': Mm)
    requires Claimed(s, x, s')
    ensures Resolved(s, x, s')
  {
    RepointedKeepsTables(s, x, Entries(s)[x].(writable := true), s');
    SharedIsCounted(s, x);
    hide Entries, Views, Separate, EntriesOk, TablesOf, Shared;
    ClaimKeepsInv(s, x, s');
    ClaimIsInvisible(s, x, s');
  }

  lemma SplitResolves(s: Mm, x: Slot, to: nat, s': Mm)
    requires Split(s, x, to, s') && s.counts[Entries(s)[x].frame] > 1
    ensures Resolved(s, x, s')
  {
    RepointedKeepsTables(s, x, Entries(s)[x].(frame := to, writable := true), s');
    SharedIsCounted(s, x);
    hide Entries, Views, Separate, EntriesOk, TablesOf, Shared;
    SplitKeepsInv(s, x, to, s');
    SplitIsInvisible(s, x, to, s');
  }

  lemma DirWriteKeepsTables(s: Mm, x: Slot, y: Slot)
    requires Shape(s) && Separate(s) && HasTable(s, x.pid, x.d)
    ensures var s' := s.(mem := DirWritable(s, x));
      && Shape(s')
      && HasTable(s', y.pid, y.d) == HasTable(s, y.pid, y.d)
      && (HasTable(s, y.pid, y.d) ==> TableFrame(s', y.pid, y.d) == TableFrame(s, y.pid, y.d))
      && Maps(s', y.pid, y.d, y.t) == Maps(s, y.pid, y.d, y.t)
      && (Maps(s, y.pid, y.d, y.t) ==> Pte(s', y.pid, y.d, y.t) == Pte(s, y.pid, y.d, y.t))
  {
  }

  lemma DirWriteKeepsEntries(s: Mm, x: Slot)
    requires Shape(s) && Separate(s) && HasTable(s, x.pid, x.d)
    ensures var s' := s.(mem := DirWritable(s, x));
      Shape(s') && Separate(s') && Entries(s') == Entries(s)
  {
    var s' := s.(mem := DirWritable(s, x));
    DirWriteKeepsTables(s, x, x);
    hide DirWritable, Maps, HasTable;
    forall y: Slot
      ensures HasTable(s', y.pid, y.d) == HasTable(s, y.pid, y.d)
      ensures HasTable(s, y.pid, y.d) ==> TableFrame(s', y.pid, y.d) == TableFrame(s, y.pid, y.d)
      ensures Maps(s', y.pid, y.d, y.t) == Maps(s, y.pid, y.d, y.t)
      ensures Maps(s, y.pid, y.d, y.t) ==> Pte(s', y.pid, y.d, y.t) == Pte(s, y.pid, y.d, y.t)
    {
      DirWriteKeepsTables(s, x, y);
    }
    forall p: nat, d: nat
      ensures HasTable(s', p, d) == HasTable(s, p, d)
      ensures HasTable(s, p, d) ==> TableFrame(s', p, d) == TableFrame(s, p, d)
    {
      DirWriteKeepsTables(s, x, Slot(p, d, 0));
    }
    assert Entries(s').Keys == Entries(s).Keys;
  }

  /** Making a directory entry writable changes no page-table entry. */
  lemma DirWriteKeepsInv(s: Mm, x: Slot)
    requires Inv(s) && HasTable(s, x.pid, x.d)
    ensures var s' := s.(mem := DirWritable(s, x));
      Inv(s') && WorldOf(s') == WorldOf(s)
  {
    DirWriteKeepsEntries(s, x);
    var s' := s.(mem := DirWritable(s, x));
    SameSpaces(s.size, s.mem, Entries(s), s'.mem, Entries(s'), s.cr3.Keys);
    forall p: nat, d: nat ensures HasTable(s', p, d) == HasTable(s, p, d) {
      DirWriteKeepsTables(s, x, Slot(p, d, 0));
    }
    SameTables(s, s');
  }

  lemma SlotFacts(s: Mm, x: Slot)
    requires Inv(s) && x in Entries(s)
    ensures HasTable(s, x.pid, x.d) && x.t < s.size
    ensures var table, w := TableFrame(s, x.pid, x.d), Entries(s)[x];
      && table < |s.mem| && s.role[table] == TableOf(x.pid, x.d) && |s.mem[table]| == s.size
      && DirWritable(s, x)[table] == s.mem[table] && s.mem[table][x.t] == w && w.present
      && w.frame < |s.mem| && s.role[w.frame] == Page && DirWritable(s, x)[w.frame] == s.mem[w.frame]
  {
  }

  lemma ResolvedWritable(s: Mm, x: Slot, s': Mm)
    requires Resolved(s, x, s')
    ensures x in Entries(s') && Entries(s')[x].writable
  {
    hide Views, TablesOf;
    assert WorldOf(s').entries[x].writable;
  }

  /** The MMU's walk to entry x. */
  lemma Walk(s: Mm, x: Slot)
    requires Inv(s) && x.pid in s.cr3 && x.d < s.size && x.t < s.size
    ensures s.cr3[x.pid] < |s.mem| && |s.mem[s.cr3[x.pid]]| == s.size
    ensures var pde := s.mem[s.cr3[x.pid]][x.d];
      if pde.present && pde.user then
        && pde.frame < |s.mem| && |s.mem[pde.frame]| == s.size
        && (x in Entries(s) <==> s.mem[pde.frame][x.t].present)
        && (x in Entries(s) ==> Entries(s)[x] == s.mem[pde.frame][x.t])
      else x !in Entries(s)
  {
    if HasTable(s, x.pid, x.d) {
      TableEntries(s, x.pid, x.d, x.t);
    } else {
      assert !Maps(s, x.pid, x.d, x.t);
    }
  }

  lemma ClaimHolds(s: Mm, x: Slot, s': Mm)
    requires Inv(s) && x in Entries(s) && s.counts[Entries(s)[x].frame] <= 1
    requires var m, table := DirWritable(s, x), TableFrame(s, x.pid, x.d);
      s' == s.(mem := m[table := m[table][x.t := Entries(s)[x].(writable := true)]])
    ensures Claimed(s, x, s')
  {
  }

  /** The state once entry x has its own copy of its frame, in frame `to`. */
  ghost function SplitOff(s: Mm, x: Slot, to: nat): Mm
    requires Inv(s) && x in Entries(s) && to in s.free
  {
    SlotFacts(s, x);
    var m, table, w := DirWritable(s, x), TableFrame(s, x.pid, x.d), Entries(s)[x];
    s.(mem := m[table := s.mem[table][x.t := w.(frame := to, writable := true)]][to := s.mem[w.frame]],
       counts := s.counts[to := 1][w.frame := s.counts[w.frame] - 1],
       free := s.free - {to}, role := s.role[to := Page])
  }

  lemma SplitHolds(s: Mm, x: Slot, to: nat)
    requires Inv(s) && x in Entries(s) && to in s.free
    ensures Split(s, x, to, SplitOff(s, x, to))
  {
    SlotFacts(s, x);
    hide Counted, OncePerSpace, WritableIsPrivate;
  }

  class Machine {
    const size: nat
    const frames: array<Frame>
    const referenceCounts: array<int>
    var free: set<nat>
    var cr3: map<nat, nat>
    ghost var role: seq<Role>

    /** A machine in any state that satisfies the invariant. */
    constructor (size: nat, mem: seq<Frame>, counts: seq<int>, free: set<nat>, cr3: map<nat, nat>, ghost role: seq<Role>)
      requires Inv(Mm(size, mem, counts, free, cr3, role)) && |cr3| <= NR_PROC
      ensures Valid() && State() == Mm(size, mem, counts, free, cr3, role)
      ensures fresh(frames) && fresh(referenceCounts)
    {
      this.size, this.free, this.cr3, this.role := size, free, cr3, role;
      frames := new Frame[|mem|](i requires 0 <= i < |mem| => mem[i]);
      referenceCounts := new int[|counts|](i requires 0 <= i < |counts| => counts[i]);
      new;
      assert frames[..] == mem && referenceCounts[..] == counts;
    }

    ghost function State(): Mm
      reads this, frames, referenceCounts
    {
      Mm(size, frames[..], referenceCounts[..], free, cr3, role)
    }

    ghost function Now(): World
      requires Valid()
      reads this, frames, referenceCounts
    {
      WorldOf(State())
    }

    ghost predicate Valid()
      reads this, frames, referenceCounts
    {
      && frames as object != referenceCounts
      && Inv(State())
      && |cr3| <= NR_PROC
    }

    /** The allocator's contract: some frame that nothing uses, counted once. */
    method PageFrameAlloc() returns (page: Option<nat>)
      requires forall f | f in free :: f < referenceCounts.Length
      modifies this`free, referenceCounts
      ensures page.None? ==> free == old(free) == {} && referenceCounts[..] == old(referenceCounts[..])
      ensures page.Some? ==>
        && page.value in old(free) && free == old(free) - {page.value}
        && referenceCounts[..] == old(referenceCounts[..])[page.value := 1]
    {
      if free == {} {
        return None;
      }
      var f :| f in free;
      free := free - {f};
      referenceCounts[f] := 1;
      return Some(f);
    }

    /** pg_table_cow: each counter is raised as often as the table maps its frame. */
    method PgTableCow(table: nat, incRef: bool)
      requires table < frames.Length && |frames[table]| == size
      requires incRef ==> forall t | 0 <= t < size && frames[table][t].present :: frames[table][t].frame < referenceCounts.Length
      requires frames as object != referenceCounts
      modifies frames, referenceCounts
      ensures frames[..] == old(frames[..])[table := CowTable(old(frames[table]))]
      ensures forall f: nat | f < referenceCounts.Length ::
        referenceCounts[f] == Raised(old(referenceCounts[f]), if incRef then Occurrences(old(frames[table]), size, f) else 0)
    {
      ghost var e, mem := frames[table], frames[..];
      for i := 0 to size
        invariant |frames[table]| == size
        invariant frames[..] == mem[table := frames[table]]
        invariant forall t | 0 <= t < size :: frames[table][t] == if t < i then Cow(e[t]) else e[t]
        invariant forall f: nat | f < referenceCounts.Length ::
          referenceCounts[f] == Raised(old(referenceCounts[f]), if incRef then Occurrences(e, i, f) else 0)
      {
        var w := frames[table][i];
        if w.present {
          frames[table] := frames[table][i := w.(writable := false)];
          if incRef {
            referenceCounts[w.frame] := ToChar(referenceCounts[w.frame] + 1);
          }
        }
      }
      assert frames[table] == CowTable(e);
    }

    method CopyPageTable(to: nat, from: nat)
      requires to < frames.Length && from < frames.Length
      modifies frames
      ensures frames[..] == old(frames[..])[to := old(frames[from])]
    {
      var tmpPage := frames[from];
      frames[to] := tmpPage;
    }

    /** The first loop of copy_address_space: write-protect the child's directory and the
        tables it took over. */
    method MarkChild(to: nat, ghost s: Mm, ghost p: nat)
      requires Inv(s) && p in s.cr3 && to in s.free && s.size == size
      requires frames as object != referenceCounts
      requires |s.mem| == frames.Length && frames[..] == s.mem[to := s.mem[s.cr3[p]]]
      modifies frames, referenceCounts
      ensures ChildMarked(s, p, to, size, frames[..])
      ensures referenceCounts[..] == old(referenceCounts[..])
    {
      for i := 0 to size
        invariant ChildMarked(s, p, to, i, frames[..])
        invariant referenceCounts[..] == old(referenceCounts[..])
      {
        ghost var mem := frames[..];
        var w := frames[to][i];
        if w.present && w.user {
          assert HasTable(s, p, i) && TableFrame(s, p, i) == w.frame && !IsOldTable(s, p, i, w.frame);
          PgTableCow(w.frame, false);
          frames[to] := frames[to][i := w.(writable := false)];
        }
        ChildMarkStep(s, p, to, i, mem, frames[..]);
      }
    }

    /** A fresh copy of a page table, every page of it counted once more. */
    method CopyAndCount(table: nat) returns (page: Option<nat>)
      requires table < frames.Length == referenceCounts.Length && |frames[table]| == size
      requires frames as object != referenceCounts
      requires forall f | f in free :: f < referenceCounts.Length && !Marks(frames[table], size, f)
      requires PresentDistinct(frames[table])
      requires forall f: nat | Marks(frames[table], size, f) ::
        f < referenceCounts.Length && 0 <= referenceCounts[f] < 127
      modifies this`free, frames, referenceCounts
      ensures page.None? ==> free == old(free) == {}
      ensures page.Some? ==>
        && page.value in old(free) && free == old(free) - {page.value}
        && frames[..] == old(frames[..])[page.value := CowTable(old(frames[table]))]
        && forall f: nat | f < referenceCounts.Length && f != page.value ::
             referenceCounts[f] == old(referenceCounts[f]) + if old(Marks(frames[table], size, f)) then 1 else 0
    {
      page := PageFrameAlloc();
      if page.None? {
        return;
      }
      CopyPageTable(page.value, table);
      ghost var e, counts := frames[page.value], referenceCounts[..];
      assert forall t | 0 <= t < size && e[t].present :: Marks(e, size, e[t].frame);
      PgTableCow(page.value, true);
      forall f: nat | f < referenceCounts.Length && f != page.value
        ensures referenceCounts[f] == counts[f] + if Marks(e, size, f) then 1 else 0
      {
        OccurrencesMarked(e, size, f);
      }
    }

    /** The body of the second loop of copy_address_space. */
    method SplitTable(to: nat, from: nat, i: nat, ghost s: Mm, ghost p: nat, ghost news: seq<nat>)
      returns (page: Option<nat>)
      requires Inv(s) && p in s.cr3 && from == s.cr3[p] && s.size == size && i < size
      requires |s.cr3| < NR_PROC && HasTable(s, p, i) && |news| == i
      requires frames as object != referenceCounts && |s.mem| == frames.Length == referenceCounts.Length
      requires FreshSoFar(s, p, to, news, free)
      requires ParentSplit(s, p, to, news, frames[..])
      requires CountsRaised(s, p, i, referenceCounts[..])
      modifies this`free, frames, referenceCounts
      ensures page.None? ==> free == old(free) == {}
      ensures page.Some? ==> page.value in old(free) && free == old(free) - {page.value}
      ensures page.Some? ==>
        && FreshSoFar(s, p, to, news + [page.value], free)
        && ParentSplit(s, p, to, news + [page.value], frames[..])
        && CountsRaised(s, p, i + 1, referenceCounts[..])
    {
      ghost var mem, oldFree, counts := frames[..], free, referenceCounts[..];
      var w := frames[from][i];
      TableCountable(s, p, i, counts, mem[w.frame]);
      page := CopyAndCount(w.frame);
      if page.None? {
        return;
      }
      assert s.role[page.value] == Unused;
      frames[from] := frames[from][i := w.(frame := page.value, writable := false)];
      CowTwice(s.mem[w.frame]);
      ParentSplitStep(s, p, to, news, oldFree, page.value, mem, frames[..]);
      CountStep(s, p, i, counts, mem[w.frame], referenceCounts[..]);
    }

    /** The second loop: give the parent fresh copies of its tables, counting every page
        once more. */
    method SplitParent(to: nat, from: nat, ghost s: Mm, ghost p: nat) returns (ok: bool, ghost news: seq<nat>)
      requires Inv(s) && p in s.cr3 && from == s.cr3[p] && s.size == size
      requires |s.cr3| < NR_PROC
      requires frames as object != referenceCounts && |s.mem| == frames.Length == referenceCounts.Length
      requires to in s.free && free == s.free - {to}
      requires ParentSplit(s, p, to, [], frames[..])
      requires CountsRaised(s, p, 0, referenceCounts[..])
      modifies this`free, frames, referenceCounts
      ensures ok ==>
        && |news| == size
        && FreshSoFar(s, p, to, news, free)
        && ParentSplit(s, p, to, news, frames[..])
        && CountsRaised(s, p, size, referenceCounts[..])
      ensures ok <==> |s.free| > NumTables(s, p, size)
      ensures if ok then |s.free| == |free| + 1 + NumTables(s, p, size) else free == {}
    {
      news := [];
      for i := 0 to size
        invariant |news| == i && |s.free| == |free| + 1 + NumTables(s, p, i)
        invariant FreshSoFar(s, p, to, news, free)
        invariant ParentSplit(s, p, to, news, frames[..])
        invariant CountsRaised(s, p, i, referenceCounts[..])
      {
        var page := SplitEntry(to, from, i, s, p, news);
        if page.None? {
          return false, news;
        }
        news := news + [page.value];
      }
      ok := true;
    }

    /** An entry without a table takes no frame; 0 stands for that. */
    method SplitEntry(to: nat, from: nat, i: nat, ghost s: Mm, ghost p: nat, ghost news: seq<nat>)
      returns (page: Option<nat>)
      requires Inv(s) && p in s.cr3 && from == s.cr3[p] && s.size == size && i < size
      requires |s.cr3| < NR_PROC && |news| == i && |s.free| == |free| + 1 + NumTables(s, p, i)
      requires frames as object != referenceCounts && |s.mem| == frames.Length == referenceCounts.Length
      requires FreshSoFar(s, p, to, news, free)
      requires ParentSplit(s, p, to, news, frames[..])
      requires CountsRaised(s, p, i, referenceCounts[..])
      modifies this`free, frames, referenceCounts
      ensures page.None? ==> free == {} && |s.free| <= NumTables(s, p, size)
      ensures page.Some? ==>
        && |s.free| == |free| + 1 + NumTables(s, p, i + 1)
        && FreshSoFar(s, p, to, news + [page.value], free)
        && ParentSplit(s, p, to, news + [page.value], frames[..])
        && CountsRaised(s, p, i + 1, referenceCounts[..])
    {
      var w := frames[from][i];
      if w.present && w.user {
        page := SplitTable(to, from, i, s, p, news);
        if page.None? {
          TablesGrow(s, p, i + 1, size);
        }
      } else {
        ParentSplitStep(s, p, to, news, free, 0, frames[..], frames[..]);
        NoTableMarks(s, p, i);
        page := Some(0);
      }
    }

    /** copy_address_space. For pid 0 the two spaces share everything. */
    method CopyAddressSpace(from: nat, to: nat, pid: nat, ghost s: Mm) returns (ok: bool, ghost news: seq<nat>)
      requires Inv(s) && s.size == size && |s.cr3| < NR_PROC
      requires frames as object != referenceCounts && |s.mem| == frames.Length == referenceCounts.Length
      requires frames[..] == s.mem && free == s.free - {to} && to in s.free
      requires pid in s.cr3 && s.cr3[pid] == from
      requires CountsRaised(s, pid, 0, referenceCounts[..])
      modifies this`free, frames, referenceCounts
      ensures pid == 0 ==>
        ok && frames[..] == s.mem[to := s.mem[from]] && free == old(free) &&
        referenceCounts[..] == old(referenceCounts[..])
      ensures pid != 0 && ok ==>
        && |news| == size
        && FreshSoFar(s, pid, to, news, free)
        && ParentSplit(s, pid, to, news, frames[..])
        && CountsRaised(s, pid, size, referenceCounts[..])
      ensures pid != 0 ==> (ok <==> |s.free| > NumTables(s, pid, size))
      ensures pid != 0 && ok ==> |s.free| == |free| + 1 + NumTables(s, pid, size)
      ensures !ok ==> free == {}
    {
      var tmpPage := frames[from];
      frames[to] := tmpPage;
      if pid == 0 {
        return true, [];
      }
      MarkChild(to, s, pid);
      FirstLoopDone(s, pid, to, frames[..]);
      ok, news := SplitParent(to, from, s, pid);
    }

    /** arch_fork once the child's directory is allocated. */
    method ForkInto(parent: nat, child: nat, to: nat, ghost s: Mm) returns (ok: bool)
      requires Inv(s) && parent in s.cr3 && child !in s.cr3 && parent != 0 && |s.cr3| < NR_PROC
      requires frames as object != referenceCounts
      requires to in s.free
      requires State() == s.(free := s.free - {to}, counts := s.counts[to := 1])
      modifies this`free, this`cr3, this`role, frames, referenceCounts
      ensures ok ==> cr3 == s.cr3[child := to] && to !in free && free <= s.free
      ensures ok ==> Inv(State()) && Views(State()) == Views(s)[child := Views(s)[parent]]
      ensures ok <==> |s.free| > NumTables(s, parent, size)
      ensures ok ==> Remaps(WorldOf(s), ForkOp(parent, child), Completed, Now())
      ensures !ok ==> free == {}
    {
      NothingRaised(s, parent, to);
      ghost var news;
      ok, news := CopyAddressSpace(cr3[parent], to, parent, s);
      if !ok {
        return;
      }
      cr3 := cr3[child := to];
      role := RolesAfterFork(s, parent, child, to, news);
      LoopsCopy(s, parent, child, to, news, State());
      LoopsTables(s, parent, child, to, news, State());
    }

    /** The memory part of fork: a directory for the child, then copy_address_space. */
    method ArchFork(parent: nat, child: nat) returns (r: ForkResult)
      requires Valid() && parent in cr3 && child !in cr3
      requires parent != 0 && |cr3| < NR_PROC
      modifies this`free, this`cr3, this`role, frames, referenceCounts
      ensures r == ForkDone ==> Valid() && ForkedTo(old(Now()), parent, child, Now())
      ensures r == NoMemory <==> old(Now()).free == {}
      ensures r == NoMemory ==> State() == old(State())
      ensures old(parent in Now().tables) && (r == ForkPanic <==> 1 <= |old(Now()).free| <= old(Now()).tables[parent])
      ensures r == ForkPanic ==> free == {}
    {
      ghost var s := State();
      assert s.free != {} ==> |s.free| >= 1;
      var page := PageFrameAlloc();
      if page.None? {
        return NoMemory;
      }
      var ok := ForkInto(parent, child, page.value, s);
      if !ok {
        return ForkPanic;
      }
      return ForkDone;
    }

    method SetEntry(table: nat, t: nat, w: Word)
      requires table < frames.Length && t < |frames[table]|
      modifies frames
      ensures frames[..] == old(frames[..])[table := old(frames[table])[t := w]]
    {
      frames[table] := frames[table][t := w];
    }

    /** page_decrease_count */
    method PageDecreaseCount(f: nat)
      requires f < referenceCounts.Length
      modifies referenceCounts
      ensures referenceCounts[..] == old(referenceCounts[..])[f := ToChar(old(referenceCounts[f]) - 1)]
    {
      referenceCounts[f] := ToChar(referenceCounts[f] - 1);
    }

    /** page_set_writable on a shared frame: the faulting entry gets a copy of its own. */
    method SplitPage(x: Slot, table: nat, w: Word, ghost s: Mm) returns (ok: bool, ghost to: nat)
      requires Inv(s) && |s.cr3| <= NR_PROC && x in Entries(s)
      requires table == TableFrame(s, x.pid, x.d) && w == Entries(s)[x]
      requires frames as object != referenceCounts
      requires State() == s.(mem := DirWritable(s, x))
      modifies this`free, this`role, frames, referenceCounts
      ensures ok ==> to in s.free && State() == SplitOff(s, x, to)
      ensures if ok then s.free != {} else free == s.free == {}
    {
      SlotFacts(s, x);
      CountBound(s, w.frame);
      CharInRange(s.counts[w.frame] - 1);
      var page := PageFrameAlloc();
      if page.None? {
        return false, 0;
      }
      assert s.role[page.value] == Unused;
      SetEntry(table, x.t, w.(frame := page.value, writable := true));
      PageDecreaseCount(w.frame);
      CopyPageTable(page.value, w.frame);
      assert page.value < |role|;
      role := role[page.value := Page];
      return true, page.value;
    }

    /** The present branch of page_set_writable: split a shared frame, or claim a private
        one.  `s` is the state before the fault; its directory entry is already writable. */
    method MakeWritable(x: Slot, table: nat, ghost s: Mm) returns (ok: bool)
      requires Inv(s) && |s.cr3| <= NR_PROC && x in Entries(s) && table == TableFrame(s, x.pid, x.d)
      requires frames as object != referenceCounts
      requires State() == s.(mem := DirWritable(s, x))
      modifies this`free, this`role, frames, referenceCounts
      ensures ok ==> Resolved(s, x, State())
      ensures ok <==> s.free != {} || !Shared(Entries(s), x)
      ensures !ok ==> free == {}
    {
      SlotFacts(s, x);
      SharedIsCounted(s, x);
      var w := frames[table][x.t];
      if referenceCounts[w.frame] > 1 {
        ghost var to;
        ok, to := SplitPage(x, table, w, s);
        if ok {
          SplitHolds(s, x, to);
          SplitResolves(s, x, to, State());
        }
      } else {
        frames[table] := frames[table][x.t := w.(writable := true)];
        ClaimHolds(s, x, State());
        ClaimResolves(s, x, State());
        ok := true;
      }
    }

    /** The address belongs to the kernel's part of the directory. */
    ghost predicate KernelEntry(x: Slot)
      requires Valid() && x.pid in cr3 && x.d < size
      reads this, frames, referenceCounts
    {
      frames[cr3[x.pid]][x.d].present && !frames[cr3[x.pid]][x.d].user
    }

    /** page_set_writable. What it does to the kernel's part of the directory is left open. */
    method PageSetWritable(x: Slot) returns (r: WriteResult)
      requires Valid() && x.pid in cr3 && x.d < size && x.t < size
      modifies this`free, this`role, frames, referenceCounts
      ensures r == WriteDone ==> Valid() && old(x in Entries(State())) && Resolved(old(State()), x, State())
      ensures r == Segv ==> Valid() && old(x !in Entries(State()))
      ensures r == Segv ==> Now() == old(Now())
      ensures r == WritePanic <==> MustSplit(old(Now()), x)
      ensures r == WritePanic ==> free == {}
      ensures r == KernelAddress <==> old(KernelEntry(x))
      ensures r == KernelAddress ==> State() == old(State()) && x !in Entries(State())
    {
      ghost var s := State();
      var dir := cr3[x.pid];
      var pde := frames[dir][x.d];
      if pde.present && !pde.user {
        assert !Maps(s, x.pid, x.d, x.t);
        return KernelAddress;
      }
      if !pde.present {
        assert !Maps(s, x.pid, x.d, x.t);
        return Segv;
      }
      assert HasTable(s, x.pid, x.d);
      DirWriteKeepsInv(s, x);
      frames[dir] := frames[dir][x.d := pde.(writable := true)];
      assert State() == s.(mem := DirWritable(s, x));
      if !frames[pde.frame][x.t].present {
        assert !Maps(s, x.pid, x.d, x.t);
        return Segv;
      }
      assert Maps(s, x.pid, x.d, x.t);
      var ok := MakeWritable(x, pde.frame, s);
      if !ok {
        return WritePanic;
      }
      return WriteDone;
    }

    /** handle_page_fault, with the two error bits it looks at. */
    method HandlePageFault(x: Slot, image: Image, addr: nat, protection: bool, write: bool) returns (r: WriteResult)
      requires Valid() && x.pid in cr3 && x.d < size && x.t < size
      modifies this`free, this`role, frames, referenceCounts
      ensures r == WriteDone ==>
        && Valid() && old(x in Entries(State())) && Resolved(old(State()), x, State())
        && protection && write && !ReadOnly(image, addr)
      ensures r == Segv ==> Valid()
      ensures r == Segv ==> !protection || !write || ReadOnly(image, addr) || old(x !in Entries(State()))
      ensures r == Segv ==> Now() == old(Now())
      ensures r == WritePanic <==> protection && write && !ReadOnly(image, addr) && MustSplit(old(Now()), x)
      ensures r == WritePanic ==> free == {}
      ensures r == KernelAddress <==> protection && write && !ReadOnly(image, addr) && old(KernelEntry(x))
      ensures r == KernelAddress ==> State() == old(State()) && x !in Entries(State())
    {
      if !protection {
        return Segv;
      }
      if !write {
        return Segv;
      }
      if InSegment(addr, image.textStart, image.textSize) {
        return Segv;
      }
      if image.rodataSize > 0 {
        if InSegment(addr, image.rodataStart, image.rodataSize) {
          return Segv;
        }
      }
      r := PageSetWritable(x);
    }

    /** The store of one word by the MMU, through entries that allow it. */
    method Store(x: Slot, w: nat, v: Word)
      requires Valid() && x in Entries(State()) && Entries(State())[x].writable && w < size
      modifies frames
      ensures Valid() && Stored(old(State()), x, w, v, State())
    {
      ghost var s := State();
      SlotFacts(s, x);
      var page := frames[frames[cr3[x.pid]][x.d].frame][x.t].frame;
      frames[page] := frames[page][w := v];
      assert State() == s.(mem := s.mem[page := s.mem[page][w := v]]);
      StoreKeepsInv(s, x, w, v, State());
    }

    /** A user process stores v at address a: the MMU, and the kernel when the MMU faults. */
    method UserWrite(pid: nat, image: Image, a: Addr, v: Word) returns (r: WriteResult)
      requires Valid() && pid in cr3 && a.d < size && a.t < size && a.w < size
      modifies this`free, this`role, frames, referenceCounts
      ensures r == WriteDone ==> Valid() && Wrote(old(Now()), image, pid, a, v, Now())
      ensures r == Segv || r == KernelAddress ==> Valid() && Denied(old(Now()), image, pid, a, Now())
      ensures r == WritePanic <==> SplitFails(old(Now()), image, pid, a)
      ensures r == WritePanic ==> free == {}
    {
      var x := Slot(pid, a.d, a.t);
      ghost var s := State();
      MappedAddr(s, x, a.w);
      Walk(s, x);
      hide Inv, Entries;
      var pde := frames[cr3[pid]][a.d];
      var mapped := pde.present && pde.user && frames[pde.frame][a.t].present;
      if mapped && pde.writable && frames[pde.frame][a.t].writable {
        Store(x, a.w, v);
        StoreWithoutFault(s, image, a, v, pid, State());
        SoleWriter(Entries(s), x);
        return WriteDone;
      }
      var kernelPage: bool := *;
      var protection := mapped || (pde.present && !pde.user && kernelPage);
      r := HandlePageFault(x, image, ByteAddress(size, a), protection, true);
      if r == WriteDone {
        ghost var s1 := State();
        ResolvedWritable(s, x, s1);
        Store(x, a.w, v);
        StoreAfterFault(s, image, a, v, pid, s1, State());
      }
    }

    ghost predicate Running(images: map<nat, Image>)
      reads this, frames, referenceCounts
    {
      Valid() && Ready(Now(), images)
    }

    method ForkStep(parent: nat, child: nat, images: map<nat, Image>)
      returns (o: Outcome, images': map<nat, Image>, halted: bool)
      requires Running(images) && parent != 0
      modifies this`free, this`cr3, this`role, frames, referenceCounts
      ensures halted <==> Panics(old(Now()), images, ForkOp(parent, child))
      ensures halted ==> free == {}
      ensures !halted ==> Running(images')
      ensures !halted ==> Advances(old(Now()), images, ForkOp(parent, child), o, Now(), images')
    {
      ProcessesOf(State());
      if parent !in cr3 || child in cr3 || |cr3| >= NR_PROC {
        ForkRefused(Now(), images, parent, child);
        return Refused, images, false;
      }
      o, images', halted := ForkAllowed(parent, child, images);
    }

    /** fork, once a slot for the child has been found. */
    method ForkAllowed(parent: nat, child: nat, images: map<nat, Image>)
      returns (o: Outcome, images': map<nat, Image>, halted: bool)
      requires Running(images) && parent != 0 && parent in cr3 && child !in cr3 && |cr3| < NR_PROC
      modifies this`free, this`cr3, this`role, frames, referenceCounts
      ensures halted <==> Panics(old(Now()), images, ForkOp(parent, child))
      ensures halted ==> free == {}
      ensures !halted ==> Running(images')
      ensures !halted ==> Advances(old(Now()), images, ForkOp(parent, child), o, Now(), images')
    {
      ghost var k := Now();
      ProcessesOf(State());
      hide Inv, WorldOf;
      var r := ArchFork(parent, child);
      ForkConcludes(k, images, parent, child, r, if r == ForkPanic then k else Now());
      hide Ready, Advances, Panics;
      images' := if r == ForkDone then images[child := images[parent]] else images;
      return if r == ForkDone then Completed else Refused, images', r == ForkPanic;
    }

    method WriteStep(pid: nat, a: Addr, v: Word, images: map<nat, Image>) returns (o: Outcome, halted: bool)
      requires Running(images) && a.d < size && a.t < size && a.w < size
      modifies this`free, this`role, frames, referenceCounts
      ensures halted <==> Panics(old(Now()), images, WriteOp(pid, a, v))
      ensures halted ==> free == {}
      ensures !halted ==> Running(images)
      ensures !halted ==> Advances(old(Now()), images, WriteOp(pid, a, v), o, Now(), images)
    {
      ghost var k := Now();
      if pid !in cr3 {
        return Refused, false;
      }
      var r := UserWrite(pid, images[pid], a, v);
      if r == WritePanic {
        return Refused, true;
      }
      if r == WriteDone {
        WriteAdvances(k, images, pid, a, v, Now());
        return Completed, false;
      }
      DenialAdvances(k, images, pid, a, v, Now());
      return Refused, false;
    }

    method Step(op: Op, images: map<nat, Image>) returns (o: Outcome, images': map<nat, Image>, halted: bool)
      requires Running(images) && InRange(op, size)
      modifies this`free, this`cr3, this`role, frames, referenceCounts
      ensures halted <==> Panics(old(Now()), images, op)
      ensures halted ==> free == {}
      ensures !halted ==> Running(images')
      ensures !halted ==> Advances(old(Now()), images, op, o, Now(), images')
    {
      match op
      case ForkOp(p, c) =>
        o, images', halted := ForkStep(p, c, images);
      case WriteOp(p, a, w) =>
        o, halted := WriteStep(p, a, w, images);
        images' := images;
    }

    /** A run of forks and writes. What every process reads at the end is what it would read
        had every fork copied all memory; every outcome on the way is justified. The run ends
        before its time exactly at the first step that runs out of memory halfway. */
    method Run(ops: seq<Op>, images: map<nat, Image>)
      returns (outs: seq<Outcome>, images': map<nat, Image>, halted: bool, ghost ks: seq<World>)
      requires Running(images)
      requires forall op | op in ops :: InRange(op, size)
      modifies this`free, this`cr3, this`role, frames, referenceCounts
      ensures Extends(images, images') && Trace(ks, images', ops, outs) && ks[0] == old(Now())
      ensures halted ==> free == {} && |outs| < |ops| && Panics(ks[|outs|], images', ops[|outs|])
      ensures !halted ==> |outs| == |ops| && Running(images') && ks[|ops|] == Now()
      ensures !halted ==> Views(State()) == CopyingRun(old(Views(State())), ops, outs)
    {
      outs, images', halted, ks := [], images, false, [Now()];
      assert Trace(ks, images', ops, outs);
      hide Inv, Trace, Ready, Follows, CopyingRun, Panics;
      while |outs| < |ops|
        invariant |outs| <= |ops| && |ks| == |outs| + 1
        invariant Running(images') && Extends(images, images') && !halted
        invariant Trace(ks, images', ops, outs) && ks[0] == old(Now()) && ks[|outs|] == Now()
      {
        assert ops[|outs|] in ops;
        var o, grown, stuck := Step(ops[|outs|], images');
        if stuck {
          halted := true;
          return;
        }
        TraceNext(ks, images', ops, outs, o, Now(), grown);
        outs, images', ks := outs + [o], grown, ks + [Now()];
      }
      TraceCopies(ks, images', ops, outs);
    }
  }
}
