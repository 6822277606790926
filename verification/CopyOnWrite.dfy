/** Copy-on-write address spaces: the pure model and its invariant
    (sys/arch/i386/virtual_mm.c, sys/mm/page_alloc.c).

    A page directory, a page table and a page of user memory are all page frames of
    `size` 32-bit words.  A word is kept decoded the way the MMU decodes it, which
    loses nothing: `frame` is bits 31..12, the flags are bits 0, 1 and 2, and `rest`
    holds the remaining nine bits. */
module CopyOnWrite {

  datatype Word = Word(frame: nat, present: bool, writable: bool, user: bool, rest: nat)

  type Frame = seq<Word>

  /** What a frame is used for. Each frame has one use, so two different uses are two
      different frames. */
  datatype Role = Unused | Kernel | DirOf(pid: nat) | TableOf(owner: nat, index: nat) | Page

  /** A user word address: directory index, table index, word within the page. */
  datatype Addr = Addr(d: nat, t: nat, w: nat)

  /** A page-table entry of one address space. */
  datatype Slot = Slot(pid: nat, d: nat, t: nat)

  /** Everything copy-on-write reads or writes. */
  datatype Mm = Mm(size: nat, mem: seq<Frame>, counts: seq<int>, free: set<nat>,
                   cr3: map<nat, nat>, role: seq<Role>)

  // ---------------------------------------------------------------------------------
  // Walking the page tables
  // ---------------------------------------------------------------------------------

  ghost predicate Shape(s: Mm) {
    && |s.counts| == |s.mem| == |s.role|
    && (forall f :: 0 <= f < |s.mem| ==> |s.mem[f]| == s.size)
    && (forall p :: p in s.cr3 ==> s.cr3[p] < |s.mem|)
    && (forall f :: f in s.free ==> f < |s.mem|)
  }

  ghost predicate HasTable(s: Mm, p: nat, d: nat)
    requires Shape(s)
  {
    p in s.cr3 && d < s.size && s.mem[s.cr3[p]][d].present && s.mem[s.cr3[p]][d].user
  }

  ghost function TableFrame(s: Mm, p: nat, d: nat): nat
    requires Shape(s) && HasTable(s, p, d)
  {
    s.mem[s.cr3[p]][d].frame
  }

  ghost predicate Maps(s: Mm, p: nat, d: nat, t: nat)
    requires Shape(s)
  {
    && HasTable(s, p, d) && t < s.size
    && TableFrame(s, p, d) < |s.mem|
    && s.mem[TableFrame(s, p, d)][t].present
  }

  ghost function Pte(s: Mm, p: nat, d: nat, t: nat): Word
    requires Shape(s) && Maps(s, p, d, t)
  {
    s.mem[TableFrame(s, p, d)][t]
  }

  ghost function Slots(s: Mm): set<Slot> {
    set p, d, t | p in s.cr3.Keys && 0 <= d < s.size && 0 <= t < s.size :: Slot(p, d, t)
  }

  /** All page-table entries that the MMU can reach, over all address spaces. */
  ghost function Entries(s: Mm): map<Slot, Word>
    requires Shape(s)
  {
    map x | x in Slots(s) && Maps(s, x.pid, x.d, x.t) :: Pte(s, x.pid, x.d, x.t)
  }

  // ---------------------------------------------------------------------------------
  // The invariant
  // ---------------------------------------------------------------------------------

  /** Directories, user page tables and user pages are different frames; in particular no
      user page table is reachable from two address spaces, or twice from one. */
  ghost predicate Separate(s: Mm)
    requires Shape(s)
  {
    && (forall p :: p in s.cr3 ==> s.role[s.cr3[p]] == DirOf(p))
    && (forall p, d :: HasTable(s, p, d) ==>
          TableFrame(s, p, d) < |s.mem| && s.role[TableFrame(s, p, d)] == TableOf(p, d))
    && (forall f :: f in s.free ==> s.role[f] == Unused)
  }

  ghost predicate PointToPages(e: map<Slot, Word>, role: seq<Role>) {
    forall x :: x in e ==> e[x].present && e[x].user && e[x].frame < |role| && role[e[x].frame] == Page
  }

  /** One address space maps a frame at most once. */
  ghost predicate OncePerSpace(e: map<Slot, Word>) {
    forall x, y :: x in e && y in e && x.pid == y.pid && e[x].frame == e[y].frame ==> x == y
  }

  /** The entries that map frame f. */
  ghost function Owners(e: map<Slot, Word>, f: nat): set<Slot> {
    set x | x in e && e[x].frame == f
  }

  ghost predicate Counted(e: map<Slot, Word>, counts: seq<int>, role: seq<Role>) {
    forall f :: 0 <= f < |counts| && f < |role| && role[f] == Page ==> counts[f] == |Owners(e, f)|
  }

  /** A writable entry is the only entry of its frame. */
  ghost predicate WritableIsPrivate(e: map<Slot, Word>) {
    forall x, y :: x in e && y in e && e[x].writable && e[x].frame == e[y].frame ==> x == y
  }

  ghost predicate EntriesOk(e: map<Slot, Word>, counts: seq<int>, role: seq<Role>) {
    && |counts| == |role|
    && PointToPages(e, role) && OncePerSpace(e) && Counted(e, counts, role) && WritableIsPrivate(e)
  }

  /** Every reachable entry points to a frame of memory. */
  ghost predicate Readable(n: nat, mem: seq<Frame>, e: map<Slot, Word>) {
    forall x :: x in e ==> e[x].frame < |mem| && |mem[e[x].frame]| == n
  }

  ghost predicate Viewable(s: Mm) {
    Shape(s) && Readable(s.size, s.mem, Entries(s))
  }

  /** The copy-on-write invariant. */
  ghost predicate Inv(s: Mm) {
    && Viewable(s) && Separate(s)
    && EntriesOk(Entries(s), s.counts, s.role)
  }

  // ---------------------------------------------------------------------------------
  // What a process sees
  // ---------------------------------------------------------------------------------

  ghost function Addrs(n: nat): set<Addr> {
    set d, t, w | 0 <= d < n && 0 <= t < n && 0 <= w < n :: Addr(d, t, w)
  }

  /** The user memory of process p: every mapped word address and the word read there. */
  ghost function View(n: nat, mem: seq<Frame>, e: map<Slot, Word>, p: nat): map<Addr, Word>
    requires Readable(n, mem, e)
  {
    map a | a in Addrs(n) && Slot(p, a.d, a.t) in e :: mem[e[Slot(p, a.d, a.t)].frame][a.w]
  }

  type Spaces = map<nat, map<Addr, Word>>

  ghost function SpacesOf(n: nat, mem: seq<Frame>, e: map<Slot, Word>, pids: set<nat>): Spaces
    requires Readable(n, mem, e)
  {
    map p | p in pids :: View(n, mem, e, p)
  }

  ghost function Views(s: Mm): Spaces
    requires Viewable(s)
  {
    SpacesOf(s.size, s.mem, Entries(s), s.cr3.Keys)
  }

  /** What a process reads at an address is what the MMU finds there: word d of the directory
      names the page table, word t of that the page, and the result is word w of the page. */
  lemma ViewIsWalk(s: Mm, p: nat, a: Addr)
    requires Inv(s) && p in s.cr3 && a.d < s.size && a.t < s.size && a.w < s.size
    ensures s.cr3[p] < |s.mem| && |s.mem[s.cr3[p]]| == s.size
    ensures var pde := s.mem[s.cr3[p]][a.d];
      if pde.present && pde.user then
        && pde.frame < |s.mem| && |s.mem[pde.frame]| == s.size
        && var pte := s.mem[pde.frame][a.t];
           && (a in Views(s)[p] <==> pte.present)
           && (pte.present ==>
                 pte.frame < |s.mem| && |s.mem[pte.frame]| == s.size && Views(s)[p][a] == s.mem[pte.frame][a.w])
      else a !in Views(s)[p]
  {
    assert a in Addrs(s.size);
    var x := Slot(p, a.d, a.t);
    assert x in Slots(s);
    assert HasTable(s, p, a.d) ==> TableFrame(s, p, a.d) < |s.mem|;
    assert x in Entries(s) <==> Maps(s, p, a.d, a.t);
  }

  // ---------------------------------------------------------------------------------
  // Fork
  // ---------------------------------------------------------------------------------

  /** What pg_table_cow leaves of a table entry. */
  function Cow(w: Word): Word {
    if w.present then w.(writable := false) else w
  }

  function CowTable(e: Frame): Frame {
    seq(|e|, i requires 0 <= i < |e| => Cow(e[i]))
  }

  /** What copy_address_space leaves of an entry of the child's directory. */
  function CowDirEntry(w: Word): Word {
    if w.present && w.user then w.(writable := false) else w
  }

  /** What copy_address_space leaves of an entry of the parent's directory. */
  function ParentEntry(w: Word, table: nat): Word {
    if w.present && w.user then w.(frame := table, writable := false) else w
  }

  ghost predicate MapsFrame(e: map<Slot, Word>, p: nat, f: nat) {
    exists x :: x in e && x.pid == p && e[x].frame == f
  }

  /** The new frame of fork: the child's directory, or the parent's fresh table number d. */
  ghost predicate Fresh(s: Mm, p: nat, to: nat, news: seq<nat>)
    requires Shape(s)
  {
    && |news| == s.size
    && to in s.free
    && (forall d: nat :: HasTable(s, p, d) ==> news[d] in s.free && news[d] != to)
    && (forall d: nat, d': nat :: HasTable(s, p, d) && HasTable(s, p, d') && news[d] == news[d'] ==> d == d')
  }

  /** Frame f is neither the child's directory nor one of the parent's old or new tables. */
  ghost predicate Elsewhere(s: Mm, p: nat, to: nat, news: seq<nat>, f: nat)
    requires Shape(s) && |news| == s.size
  {
    f != to && forall d: nat :: HasTable(s, p, d) ==> f != TableFrame(s, p, d) && f != news[d]
  }

  ghost predicate ForkedMem(s: Mm, p: nat, to: nat, news: seq<nat>, s': Mm)
    requires Shape(s) && Shape(s') && Separate(s) && p in s.cr3 && Fresh(s, p, to, news)
  {
    && |s'.mem| == |s.mem| && s'.size == s.size
    // the child's directory keeps the parent's old tables
    && (forall d :: 0 <= d < s.size ==> s'.mem[to][d] == CowDirEntry(s.mem[s.cr3[p]][d]))
    // the parent's directory points to the fresh tables
    && (forall d :: 0 <= d < s.size ==>
          s'.mem[s.cr3[p]][d] == ParentEntry(s.mem[s.cr3[p]][d], news[d]))
    // old and fresh tables have the same entries, none of them writable
    && (forall d: nat :: HasTable(s, p, d) ==>
          && s'.mem[TableFrame(s, p, d)] == CowTable(s.mem[TableFrame(s, p, d)])
          && s'.mem[news[d]] == CowTable(s.mem[TableFrame(s, p, d)]))
    // nothing else is written
    && (forall f | 0 <= f < |s.mem| && Elsewhere(s, p, to, news, f) && s.role[f] != DirOf(p) ::
          s'.mem[f] == s.mem[f])
  }

  ghost predicate ForkedBooks(s: Mm, p: nat, c: nat, to: nat, news: seq<nat>, s': Mm)
    requires Shape(s) && Shape(s') && Separate(s) && p in s.cr3 && Fresh(s, p, to, news)
  {
    && |s'.mem| == |s.mem| && s'.size == s.size
    && s'.cr3 == s.cr3[c := to]
    && s'.free <= s.free && to !in s'.free
    && s'.role[to] == DirOf(c)
    && (forall d: nat :: HasTable(s, p, d) ==>
          && news[d] !in s'.free
          && s'.role[TableFrame(s, p, d)] == TableOf(c, d)
          && s'.role[news[d]] == TableOf(p, d))
    && (forall f | 0 <= f < |s.mem| && Elsewhere(s, p, to, news, f) :: s'.role[f] == s.role[f])
    && (forall f :: 0 <= f < |s.mem| && s.role[f] == Page ==>
          s'.counts[f] == s.counts[f] + if MapsFrame(Entries(s), p, f) then 1 else 0)
  }

  ghost predicate Forked(s: Mm, p: nat, c: nat, to: nat, news: seq<nat>, s': Mm)
  {
    && Inv(s) && Shape(s') && p in s.cr3 && c !in s.cr3
    && Fresh(s, p, to, news)
    && ForkedMem(s, p, to, news, s')
    && ForkedBooks(s, p, c, to, news, s')
  }

  /** After a fork, parent and child have the parent's old entries without write permission... */
  lemma ForkedWalk(s: Mm, p: nat, c: nat, to: nat, news: seq<nat>, s': Mm, d: nat)
    requires Forked(s, p, c, to, news, s')
    ensures HasTable(s', p, d) == HasTable(s', c, d) == HasTable(s, p, d)
    ensures HasTable(s, p, d) ==>
      TableFrame(s', p, d) == news[d] && TableFrame(s', c, d) == TableFrame(s, p, d)
    ensures forall t :: Maps(s', p, d, t) == Maps(s', c, d, t) == Maps(s, p, d, t)
    ensures forall t :: Maps(s, p, d, t) ==>
      Pte(s', p, d, t) == Pte(s', c, d, t) == Cow(Pte(s, p, d, t))
  {
    assert s.cr3[p] != to;
  }

  /** ...and every other address space keeps its directory and tables as they were. */
  lemma ForkedOthers(s: Mm, p: nat, c: nat, to: nat, news: seq<nat>, s': Mm, q: nat, d: nat)
    requires Forked(s, p, c, to, news, s') && q != p && q != c
    ensures HasTable(s', q, d) == HasTable(s, q, d)
    ensures HasTable(s, q, d) ==> TableFrame(s', q, d) == TableFrame(s, q, d)
    ensures forall t :: Maps(s', q, d, t) == Maps(s, q, d, t)
    ensures forall t :: Maps(s, q, d, t) ==> Pte(s', q, d, t) == Pte(s, q, d, t)
  {
  }

  // ---------------------------------------------------------------------------------
  // Fork keeps the invariant
  // ---------------------------------------------------------------------------------

  /** e' is e where child c has all of parent p's entries, and neither may write. */
  ghost predicate SharesEntries(e: map<Slot, Word>, p: nat, c: nat, e': map<Slot, Word>) {
    && (forall x :: x in e ==> x.pid != c)
    && (forall x :: x in e' <==> x.(pid := if x.pid == c then p else x.pid) in e)
    && (forall x :: x in e' ==>
          if x.pid == c || x.pid == p then e'[x] == e[x.(pid := p)].(writable := false) else e'[x] == e[x])
  }

  lemma ForkedEntry(s: Mm, p: nat, c: nat, to: nat, news: seq<nat>, s': Mm, x: Slot)
    requires Forked(s, p, c, to, news, s')
    ensures x in Entries(s') <==> x.(pid := if x.pid == c then p else x.pid) in Entries(s)
    ensures x in Entries(s') ==>
      if x.pid == c || x.pid == p then Entries(s')[x] == Entries(s)[x.(pid := p)].(writable := false)
      else Entries(s')[x] == Entries(s)[x]
  {
    if x.pid == p || x.pid == c {
      ForkedWalk(s, p, c, to, news, s', x.d);
    } else {
      ForkedOthers(s, p, c, to, news, s', x.pid, x.d);
    }
  }

  lemma ForkedEntries(s: Mm, p: nat, c: nat, to: nat, news: seq<nat>, s': Mm)
    requires Forked(s, p, c, to, news, s')
    ensures SharesEntries(Entries(s), p, c, Entries(s'))
  {
    assert Shape(s) && Shape(s') && forall x :: x in Entries(s) ==> x.pid != c;
    hide Forked, Shape, Entries;
    forall x: Slot
      ensures x in Entries(s') <==> x.(pid := if x.pid == c then p else x.pid) in Entries(s)
      ensures x in Entries(s') ==>
        if x.pid == c || x.pid == p then Entries(s')[x] == Entries(s)[x.(pid := p)].(writable := false)
        else Entries(s')[x] == Entries(s)[x]
    {
      ForkedEntry(s, p, c, to, news, s', x);
    }
  }

  /** The frames the parent maps gain exactly the child's entry as an owner. */
  lemma SharedOwners(e: map<Slot, Word>, p: nat, c: nat, e': map<Slot, Word>, f: nat)
    requires OncePerSpace(e) && SharesEntries(e, p, c, e') && p != c
    ensures |Owners(e', f)| == |Owners(e, f)| + if MapsFrame(e, p, f) then 1 else 0
  {
    if x :| x in e && x.pid == p && e[x].frame == f {
      assert Owners(e', f) == Owners(e, f) + {x.(pid := c)} by {
        forall y | y in Owners(e', f) ensures y in Owners(e, f) + {x.(pid := c)} {
          assert y.pid == c ==> y.(pid := p) == x;
        }
        assert x.(pid := c).(pid := p) == x;
      }
    } else {
      assert Owners(e', f) == Owners(e, f) by {
        forall y | y in Owners(e', f) ensures y in Owners(e, f) {
          assert y.pid == c ==> y.(pid := p) in e;
        }
      }
    }
  }

  lemma SharingKeeps(e: map<Slot, Word>, p: nat, c: nat, e': map<Slot, Word>)
    requires OncePerSpace(e) && WritableIsPrivate(e) && SharesEntries(e, p, c, e') && p != c
    ensures OncePerSpace(e') && WritableIsPrivate(e')
  {
    forall x, y | x in e' && y in e' && x.pid == y.pid && e'[x].frame == e'[y].frame ensures x == y {
      var q := if x.pid == c then p else x.pid;
      assert x.(pid := q) == y.(pid := q);
    }
    forall x, y | x in e' && y in e' && e'[x].writable && e'[x].frame == e'[y].frame ensures x == y {
      assert y.(pid := if y.pid == c then p else y.pid) == x;
    }
  }

  lemma ForkedRoles(s: Mm, p: nat, c: nat, to: nat, news: seq<nat>, s': Mm)
    requires Forked(s, p, c, to, news, s')
    ensures forall f :: 0 <= f < |s.mem| ==> (s'.role[f] == Page <==> s.role[f] == Page)
    ensures forall f :: 0 <= f < |s.mem| && s.role[f] == Page ==> s'.mem[f] == s.mem[f]
  {
    forall f | 0 <= f < |s.mem|
      ensures s'.role[f] == Page <==> s.role[f] == Page
      ensures s.role[f] == Page ==> s'.mem[f] == s.mem[f]
    {
      if !Elsewhere(s, p, to, news, f) && f != to {
        var d: nat :| HasTable(s, p, d) && (f == TableFrame(s, p, d) || f == news[d]);
      }
    }
  }

  lemma ForkedSeparate(s: Mm, p: nat, c: nat, to: nat, news: seq<nat>, s': Mm)
    requires Forked(s, p, c, to, news, s')
    ensures Separate(s')
  {
    forall q, d | HasTable(s', q, d)
      ensures TableFrame(s', q, d) < |s'.mem| && s'.role[TableFrame(s', q, d)] == TableOf(q, d)
    {
      if q == p || q == c {
        ForkedWalk(s, p, c, to, news, s', d);
      } else {
        ForkedOthers(s, p, c, to, news, s', q, d);
        assert Elsewhere(s, p, to, news, TableFrame(s, q, d));
      }
    }
    forall q | q in s'.cr3 ensures s'.role[s'.cr3[q]] == DirOf(q) {
      assert q != c ==> Elsewhere(s, p, to, news, s.cr3[q]);
    }
    forall f | f in s'.free ensures s'.role[f] == Unused {
      assert Elsewhere(s, p, to, news, f);
    }
  }

  lemma SharedCounts(e: map<Slot, Word>, p: nat, c: nat, e': map<Slot, Word>,
                     counts: seq<int>, counts': seq<int>, role: seq<Role>, role': seq<Role>)
    requires OncePerSpace(e) && SharesEntries(e, p, c, e') && p != c
    requires |counts'| == |counts| == |role| == |role'|
    requires forall f :: 0 <= f < |role| ==> (role'[f] == Page <==> role[f] == Page)
    requires Counted(e, counts, role) && PointToPages(e, role)
    requires forall f :: 0 <= f < |role| && role[f] == Page ==>
      counts'[f] == counts[f] + if MapsFrame(e, p, f) then 1 else 0
    ensures Counted(e', counts', role') && PointToPages(e', role')
  {
    forall f | 0 <= f < |counts'| && role'[f] == Page ensures counts'[f] == |Owners(e', f)| {
      SharedOwners(e, p, c, e', f);
    }
  }

  lemma SharedViews(n: nat, mem: seq<Frame>, e: map<Slot, Word>, p: nat, c: nat,
                    mem': seq<Frame>, e': map<Slot, Word>, q: nat)
    requires SharesEntries(e, p, c, e') && p != c
    requires Readable(n, mem, e) && Readable(n, mem', e')
    requires forall x :: x in e ==> mem'[e[x].frame] == mem[e[x].frame]
    ensures View(n, mem', e', q) == View(n, mem, e, if q == c then p else q)
  {
    forall d, t ensures Slot(q, d, t) in e' <==> Slot(if q == c then p else q, d, t) in e {
      assert Slot(q, d, t).(pid := if q == c then p else q) == Slot(if q == c then p else q, d, t);
    }
  }

  /** Fork keeps the copy-on-write invariant. */
  lemma ForkKeepsInv(s: Mm, p: nat, c: nat, to: nat, news: seq<nat>, s': Mm)
    requires Forked(s, p, c, to, news, s')
    ensures Inv(s')
  {
    ForkedSeparate(s, p, c, to, news, s');
    ForkedRoles(s, p, c, to, news, s');
    ForkedEntries(s, p, c, to, news, s');
    SharingKeeps(Entries(s), p, c, Entries(s'));
    SharedCounts(Entries(s), p, c, Entries(s'), s.counts, s'.counts, s.role, s'.role);
  }

  lemma CopiedMap<V>(v: map<nat, V>, p: nat, c: nat, v': map<nat, V>)
    requires p in v && c !in v && v'.Keys == v.Keys + {c}
    requires forall q :: q in v' ==> v'[q] == v[if q == c then p else q]
    ensures v' == v[c := v[p]]
  {
    assert v'.Keys == v[c := v[p]].Keys;
  }

  lemma SharedSpaces(n: nat, mem: seq<Frame>, e: map<Slot, Word>, pids: set<nat>, p: nat, c: nat,
                     mem': seq<Frame>, e': map<Slot, Word>)
    requires SharesEntries(e, p, c, e') && p in pids && c !in pids
    requires Readable(n, mem, e) && Readable(n, mem', e')
    requires forall x :: x in e ==> mem'[e[x].frame] == mem[e[x].frame]
    ensures SpacesOf(n, mem', e', pids + {c}) ==
            SpacesOf(n, mem, e, pids)[c := SpacesOf(n, mem, e, pids)[p]]
  {
    var v, v' := SpacesOf(n, mem, e, pids), SpacesOf(n, mem', e', pids + {c});
    forall q | q in v' ensures v'[q] == v[if q == c then p else q] {
      SharedViews(n, mem, e, p, c, mem', e', q);
    }
    CopiedMap(v, p, c, v');
  }

  lemma SharedMemory(s: Mm, p: nat, c: nat, s': Mm)
    requires Viewable(s) && Viewable(s') && s'.size == s.size && p in s.cr3 && c !in s.cr3
    requires s'.cr3.Keys == s.cr3.Keys + {c}
    requires SharesEntries(Entries(s), p, c, Entries(s'))
    requires forall x :: x in Entries(s) ==> s'.mem[Entries(s)[x].frame] == s.mem[Entries(s)[x].frame]
    ensures Views(s') == Views(s)[c := Views(s)[p]]
  {
    SharedSpaces(s.size, s.mem, Entries(s), s.cr3.Keys, p, c, s'.mem, Entries(s'));
  }

  /** Fork is a copy: the child sees the parent's memory, and nobody else sees a change. */
  lemma ForkCopies(s: Mm, p: nat, c: nat, to: nat, news: seq<nat>, s': Mm)
    requires Forked(s, p, c, to, news, s')
    ensures Inv(s') && Views(s') == Views(s)[c := Views(s)[p]]
  {
    hide Entries, Views, Separate, SharesEntries, ForkedMem;
    ForkKeepsInv(s, p, c, to, news, s');
    ForkedEntries(s, p, c, to, news, s');
    ForkedRoles(s, p, c, to, news, s');
    SharedMemory(s, p, c, s');
  }

  // ---------------------------------------------------------------------------------
  // The write fault
  // ---------------------------------------------------------------------------------

  /** The tables of s' are those of s, except that entry x became w and that x's directory
      entry became writable. */
  ghost predicate Repointed(s: Mm, x: Slot, w: Word, s': Mm) {
    && Shape(s) && Shape(s') && Separate(s) && Maps(s, x.pid, x.d, x.t)
    && s'.size == s.size && s'.cr3 == s.cr3 && |s'.mem| == |s.mem|
    && s'.mem[s.cr3[x.pid]] == s.mem[s.cr3[x.pid]][x.d := s.mem[s.cr3[x.pid]][x.d].(writable := true)]
    && s'.mem[TableFrame(s, x.pid, x.d)] == s.mem[TableFrame(s, x.pid, x.d)][x.t := w]
    && (forall f | 0 <= f < |s.mem| && f != s.cr3[x.pid] && f != TableFrame(s, x.pid, x.d) &&
                   (s.role[f].DirOf? || s.role[f].TableOf?) :: s'.mem[f] == s.mem[f])
  }

  lemma RepointedTables(s: Mm, x: Slot, w: Word, s': Mm, p: nat, d: nat)
    requires Repointed(s, x, w, s')
    ensures HasTable(s', p, d) == HasTable(s, p, d)
    ensures HasTable(s, p, d) ==> TableFrame(s', p, d) == TableFrame(s, p, d)
  {
  }

  lemma RepointedMaps(s: Mm, x: Slot, w: Word, s': Mm, y: Slot)
    requires Repointed(s, x, w, s') && w.present
    ensures Maps(s', y.pid, y.d, y.t) == Maps(s, y.pid, y.d, y.t)
    ensures Maps(s, y.pid, y.d, y.t) ==> Pte(s', y.pid, y.d, y.t) == if y == x then w else Pte(s, y.pid, y.d, y.t)
  {
    RepointedTables(s, x, w, s', y.pid, y.d);
    RepointedTables(s, x, w, s', x.pid, x.d);
  }

  lemma RepointedEntries(s: Mm, x: Slot, w: Word, s': Mm)
    requires Repointed(s, x, w, s') && w.present
    ensures Entries(s') == Entries(s)[x := w]
  {
    forall y: Slot
      ensures y in Entries(s') <==> y in Entries(s)
      ensures y in Entries(s') ==> Entries(s')[y] == if y == x then w else Entries(s)[y]
    {
      RepointedAt(s, x, w, s', y);
    }
    RepointedAt(s, x, w, s', x);
    OneChanged(Entries(s), Entries(s'), x, w);
  }

  lemma RepointedAt(s: Mm, x: Slot, w: Word, s': Mm, y: Slot)
    requires Repointed(s, x, w, s') && w.present
    ensures x in Entries(s)
    ensures y in Entries(s') <==> y in Entries(s)
    ensures y in Entries(s') ==> Entries(s')[y] == if y == x then w else Entries(s)[y]
  {
    RepointedMaps(s, x, w, s', y);
  }

  lemma OneChanged(e: map<Slot, Word>, e': map<Slot, Word>, x: Slot, w: Word)
    requires x in e && forall y :: y in e' <==> y in e
    requires forall y | y in e' :: e'[y] == if y == x then w else e[y]
    ensures e' == e[x := w]
  {
    assert e'.Keys == e[x := w].Keys;
  }

  /** A frame counted at most once is private to the entry that maps it. */
  lemma SoleOwner(e: map<Slot, Word>, x: Slot, counts: seq<int>, role: seq<Role>)
    requires EntriesOk(e, counts, role) && x in e && counts[e[x].frame] <= 1
    ensures counts[e[x].frame] == 1 && Owners(e, e[x].frame) == {x}
  {
    var o := Owners(e, e[x].frame);
    assert x in o;
    if y :| y in o && y != x {
      assert {x, y} <= o;
      Subset({x, y}, o);
    }
    assert o == {x};
  }

  lemma Subset<T>(a: set<T>, b: set<T>)
    requires a <= b
    ensures |a| <= |b|
  {
    if a != {} {
      var x :| x in a;
      Subset(a - {x}, b - {x});
    }
  }

  lemma ClaimedEntry(e: map<Slot, Word>, x: Slot, counts: seq<int>, role: seq<Role>)
    requires EntriesOk(e, counts, role) && x in e && counts[e[x].frame] <= 1
    ensures EntriesOk(e[x := e[x].(writable := true)], counts, role)
  {
    SoleOwner(e, x, counts, role);
    var e' := e[x := e[x].(writable := true)];
    forall f ensures Owners(e', f) == Owners(e, f) {}
    forall y | y in e' && e'[x].frame == e'[y].frame ensures y == x {
      assert y in Owners(e, e[x].frame);
    }
  }

  lemma SplitOwners(e: map<Slot, Word>, x: Slot, to: nat, g: nat)
    requires x in e && forall y :: y in e ==> e[y].frame != to
    ensures var e' := e[x := e[x].(frame := to, writable := true)];
      Owners(e', g) == (if g == to then {x} else Owners(e, g) - {x})
    ensures g == e[x].frame ==> x in Owners(e, g)
    ensures g != e[x].frame ==> x !in Owners(e, g)
  {
    var e' := e[x := e[x].(frame := to, writable := true)];
    if g == to {
      assert Owners(e', g) == {x};
    } else {
      assert Owners(e', g) == Owners(e, g) - {x};
    }
  }

  lemma SplitCounts(e: map<Slot, Word>, x: Slot, to: nat, counts: seq<int>, role: seq<Role>)
    requires |counts| == |role| && PointToPages(e, role) && Counted(e, counts, role) && x in e
    requires to < |role| && role[to] != Page
    ensures Counted(e[x := e[x].(frame := to, writable := true)],
                    counts[to := 1][e[x].frame := counts[e[x].frame] - 1], role[to := Page])
  {
    var e' := e[x := e[x].(frame := to, writable := true)];
    var counts' := counts[to := 1][e[x].frame := counts[e[x].frame] - 1];
    forall g | 0 <= g < |counts'| && role[to := Page][g] == Page ensures counts'[g] == |Owners(e', g)| {
      SplitOwners(e, x, to, g);
      if g != to && g != e[x].frame {
        assert Owners(e, g) - {x} == Owners(e, g);
      }
    }
  }

  lemma SplitEntry(e: map<Slot, Word>, x: Slot, to: nat, counts: seq<int>, role: seq<Role>)
    requires EntriesOk(e, counts, role) && x in e
    requires to < |role| && role[to] != Page
    ensures EntriesOk(e[x := e[x].(frame := to, writable := true)],
                      counts[to := 1][e[x].frame := counts[e[x].frame] - 1], role[to := Page])
  {
    SplitCounts(e, x, to, counts, role);
    var e' := e[x := e[x].(frame := to, writable := true)];
    assert forall y :: y in e' && e'[y].frame == to ==> y == x;
  }

  /** What the write fault at entry x did when its frame was mapped only there. */
  ghost predicate Claimed(s: Mm, x: Slot, s': Mm) {
    && Inv(s) && x in Entries(s) && s.counts[Entries(s)[x].frame] <= 1
    && Repointed(s, x, Entries(s)[x].(writable := true), s')
    && s'.counts == s.counts && s'.role == s.role && s'.free == s.free
    && (forall f | 0 <= f < |s.mem| && s.role[f] == Page :: s'.mem[f] == s.mem[f])
  }

  /** What the write fault at entry x did when its frame was shared: `to` is the copy. */
  ghost predicate Split(s: Mm, x: Slot, to: nat, s': Mm) {
    && Inv(s) && x in Entries(s) && to in s.free
    && Repointed(s, x, Entries(s)[x].(frame := to, writable := true), s')
    && s'.counts == s.counts[to := 1][Entries(s)[x].frame := s.counts[Entries(s)[x].frame] - 1]
    && s'.role == s.role[to := Page] && s'.free == s.free - {to}
    && s'.mem[to] == s.mem[Entries(s)[x].frame]
    && (forall f | 0 <= f < |s.mem| && s.role[f] == Page :: s'.mem[f] == s.mem[f])
  }

  lemma RepointedSeparate(s: Mm, x: Slot, w: Word, s': Mm)
    requires Repointed(s, x, w, s') && w.present
    requires s'.free <= s.free
    requires |s'.role| == |s.role|
    requires forall f | 0 <= f < |s.role| && s.role[f] != Unused :: s'.role[f] == s.role[f]
    requires forall f | f in s'.free :: s'.role[f] == s.role[f]
    ensures Separate(s')
  {
    forall p, d ensures HasTable(s', p, d) == HasTable(s, p, d)
      ensures HasTable(s, p, d) ==> TableFrame(s', p, d) == TableFrame(s, p, d)
    {
    }
  }

  lemma SameSpaces(n: nat, mem: seq<Frame>, e: map<Slot, Word>, mem': seq<Frame>, e': map<Slot, Word>, pids: set<nat>)
    requires Readable(n, mem, e) && Readable(n, mem', e') && e'.Keys == e.Keys
    requires forall x :: x in e ==> mem'[e'[x].frame] == mem[e[x].frame]
    ensures SpacesOf(n, mem', e', pids) == SpacesOf(n, mem, e, pids)
  {
    forall p | p in pids ensures View(n, mem', e', p) == View(n, mem, e, p) {}
  }

  lemma SameViews(s: Mm, s': Mm)
    requires Viewable(s) && Viewable(s') && s'.size == s.size && s'.cr3 == s.cr3
    requires Entries(s').Keys == Entries(s).Keys
    requires forall x :: x in Entries(s) ==> s'.mem[Entries(s')[x].frame] == s.mem[Entries(s)[x].frame]
    ensures Views(s') == Views(s)
  {
    SameSpaces(s.size, s.mem, Entries(s), s'.mem, Entries(s'), s.cr3.Keys);
  }

  lemma ClaimKeepsInv(s: Mm, x: Slot, s': Mm)
    requires Claimed(s, x, s')
    ensures Inv(s') && Entries(s') == Entries(s)[x := Entries(s)[x].(writable := true)]
  {
    RepointedEntries(s, x, Entries(s)[x].(writable := true), s');
    RepointedSeparate(s, x, Entries(s)[x].(writable := true), s');
    ClaimedEntry(Entries(s), x, s.counts, s.role);
  }

  /** Taking over a frame keeps the invariant and changes nobody's memory. */
  lemma ClaimIsInvisible(s: Mm, x: Slot, s': Mm)
    requires Claimed(s, x, s')
    ensures Inv(s') && Views(s') == Views(s)
  {
    hide Entries, Separate, Views;
    ClaimKeepsInv(s, x, s');
    SameViews(s, s');
  }

  lemma SplitKeepsInv(s: Mm, x: Slot, to: nat, s': Mm)
    requires Split(s, x, to, s')
    ensures Inv(s') && Entries(s') == Entries(s)[x := Entries(s)[x].(frame := to, writable := true)]
  {
    RepointedEntries(s, x, Entries(s)[x].(frame := to, writable := true), s');
    RepointedSeparate(s, x, Entries(s)[x].(frame := to, writable := true), s');
    SplitEntry(Entries(s), x, to, s.counts, s.role);
  }

  /** Splitting a shared frame keeps the invariant and changes nobody's memory. */
  lemma SplitIsInvisible(s: Mm, x: Slot, to: nat, s': Mm)
    requires Split(s, x, to, s')
    ensures Inv(s') && Views(s') == Views(s)
  {
    hide Entries, Separate, Views;
    SplitKeepsInv(s, x, to, s');
    SameViews(s, s');
  }

  // ---------------------------------------------------------------------------------
  // A store through a writable entry
  // ---------------------------------------------------------------------------------

  ghost predicate Stored(s: Mm, x: Slot, w: nat, v: Word, s': Mm) {
    && Inv(s) && x in Entries(s) && Entries(s)[x].writable && w < s.size
    && s' == s.(mem := s.mem[Entries(s)[x].frame := s.mem[Entries(s)[x].frame][w := v]])
  }

  lemma PageWriteKeepsTables(s: Mm, f: nat, content: Frame)
    requires Shape(s) && Separate(s) && f < |s.mem| && s.role[f] == Page && |content| == s.size
    ensures var s' := s.(mem := s.mem[f := content]);
      && Shape(s') && Separate(s')
      && (forall p: nat, d: nat :: HasTable(s', p, d) == HasTable(s, p, d))
      && (forall p: nat, d: nat | HasTable(s, p, d) ::
            TableFrame(s', p, d) == TableFrame(s, p, d) && s'.mem[TableFrame(s, p, d)] == s.mem[TableFrame(s, p, d)])
  {
  }

  /** Writing a frame that is no directory and no table changes no entry. */
  lemma PageWriteKeepsEntries(s: Mm, f: nat, content: Frame)
    requires Shape(s) && Separate(s) && f < |s.mem| && s.role[f] == Page && |content| == s.size
    ensures var s' := s.(mem := s.mem[f := content]);
      Shape(s') && Separate(s') && Entries(s') == Entries(s)
  {
    var s' := s.(mem := s.mem[f := content]);
    PageWriteKeepsTables(s, f, content);
    hide HasTable, TableFrame;
    forall y: Slot
      ensures Maps(s', y.pid, y.d, y.t) == Maps(s, y.pid, y.d, y.t)
      ensures Maps(s, y.pid, y.d, y.t) ==> Pte(s', y.pid, y.d, y.t) == Pte(s, y.pid, y.d, y.t)
    {
    }
    assert Entries(s').Keys == Entries(s).Keys;
  }

  lemma StoreKeepsInv(s: Mm, x: Slot, w: nat, v: Word, s': Mm)
    requires Stored(s, x, w, v, s')
    ensures Inv(s') && Entries(s') == Entries(s)
  {
    PageWriteKeepsEntries(s, Entries(s)[x].frame, s.mem[Entries(s)[x].frame][w := v]);
  }

  lemma StoredView(n: nat, mem: seq<Frame>, e: map<Slot, Word>, x: Slot, w: nat, v: Word, p: nat)
    requires Readable(n, mem, e) && x in e && e[x].writable && WritableIsPrivate(e)
    requires w < n && Addr(x.d, x.t, w) in Addrs(n)
    ensures var mem' := mem[e[x].frame := mem[e[x].frame][w := v]];
      View(n, mem', e, p) ==
        if p == x.pid then View(n, mem, e, p)[Addr(x.d, x.t, w) := v] else View(n, mem, e, p)
  {
    var mem' := mem[e[x].frame := mem[e[x].frame][w := v]];
    assert x == Slot(x.pid, x.d, x.t);
    assert p == x.pid ==> View(n, mem', e, p).Keys == View(n, mem, e, p)[Addr(x.d, x.t, w) := v].Keys;
  }

  lemma StoredSpaces(n: nat, mem: seq<Frame>, e: map<Slot, Word>, pids: set<nat>, x: Slot, w: nat, v: Word)
    requires Readable(n, mem, e) && x in e && e[x].writable && WritableIsPrivate(e) && x.pid in pids
    requires w < n && Addr(x.d, x.t, w) in Addrs(n)
    ensures var mem' := mem[e[x].frame := mem[e[x].frame][w := v]]; var before := SpacesOf(n, mem, e, pids);
      Readable(n, mem', e) && SpacesOf(n, mem', e, pids) == before[x.pid := before[x.pid][Addr(x.d, x.t, w) := v]]
  {
    var mem' := mem[e[x].frame := mem[e[x].frame][w := v]];
    var v0, v1 := SpacesOf(n, mem, e, pids), SpacesOf(n, mem', e, pids);
    hide View;
    forall p | p in pids
      ensures v1[p] == if p == x.pid then v0[p][Addr(x.d, x.t, w) := v] else v0[p]
    {
      StoredView(n, mem, e, x, w, v, p);
    }
    assert v1.Keys == v0.Keys == pids;
  }

  /** A store is seen by the process that does it, at that address, and by nobody else. */
  lemma StoreIsPrivate(s: Mm, x: Slot, w: nat, v: Word, s': Mm)
    requires Stored(s, x, w, v, s')
    ensures Inv(s') && Views(s') == Views(s)[x.pid := Views(s)[x.pid][Addr(x.d, x.t, w) := v]]
  {
    assert x.pid in s.cr3 && Addr(x.d, x.t, w) in Addrs(s.size);
    hide Entries, Separate, SpacesOf, Addrs;
    StoreKeepsInv(s, x, w, v, s');
    StoredSpaces(s.size, s.mem, Entries(s), s.cr3.Keys, x, w, v);
  }

  // ---------------------------------------------------------------------------------
  // The counter is wide enough
  // ---------------------------------------------------------------------------------

  lemma OwnersBound(o: set<Slot>, pids: set<nat>)
    requires forall x :: x in o ==> x.pid in pids
    requires forall x, y :: x in o && y in o && x.pid == y.pid ==> x == y
    ensures |o| <= |pids|
  {
    if o != {} {
      var x :| x in o;
      OwnersBound(o - {x}, pids - {x.pid});
    }
  }

  /** A frame is never counted more often than there are address spaces. */
  lemma CountBound(s: Mm, f: nat)
    requires Inv(s) && f < |s.mem| && s.role[f] == Page
    ensures 0 <= s.counts[f] <= |s.cr3|
  {
    OwnersBound(Owners(Entries(s), f), s.cr3.Keys);
    assert |s.cr3.Keys| == |s.cr3|;
  }

  // ---------------------------------------------------------------------------------
  // A state that satisfies the invariant
  // ---------------------------------------------------------------------------------

  const NOTHING := Word(0, false, false, false, 0)

  /** Process 1 with a directory in frame 0, one table in frame 1, a page that it may only read
      at 0x400000 in frame 2, and one that it may write behind it in frame 3. Two frames are
      left. */
  function SmallMachine(): Mm {
    Mm(1024, [Only(1, Word(1, true, true, true, 0)), SmallTable(), Only(0, NOTHING), Only(0, NOTHING), Only(0, NOTHING), Only(0, NOTHING)],
       [1, 1, 1, 1, 0, 0], {4, 5}, map[1 := 0], [DirOf(1), TableOf(1, 1), Page, Page, Unused, Unused])
  }

  function Only(i: nat, w: Word): (f: Frame)
    ensures |f| == 1024 && forall j | 0 <= j < 1024 :: f[j] == if j == i then w else NOTHING
  {
    seq(1024, j => if j == i then w else NOTHING)
  }

  function SmallTable(): (f: Frame)
    ensures |f| == 1024 && f[0] == Word(2, true, false, true, 0) && f[1] == Word(3, true, true, true, 0)
    ensures forall j | 2 <= j < 1024 :: f[j] == NOTHING
  {
    seq(1024, j => if j == 0 then Word(2, true, false, true, 0) else if j == 1 then Word(3, true, true, true, 0) else NOTHING)
  }

  lemma SmallShape()
    ensures Shape(SmallMachine()) && Separate(SmallMachine())
    ensures forall p, d :: HasTable(SmallMachine(), p, d) <==> p == 1 && d == 1
    ensures TableFrame(SmallMachine(), 1, 1) == 1
  {
    hide Only, SmallTable;
  }

  lemma SmallEntries()
    ensures Shape(SmallMachine()) && Separate(SmallMachine())
    ensures Entries(SmallMachine()) ==
      map[Slot(1, 1, 0) := Word(2, true, false, true, 0), Slot(1, 1, 1) := Word(3, true, true, true, 0)]
  {
    var s := SmallMachine();
    SmallShape();
    hide Separate, Shape, HasTable, TableFrame;
    forall y: Slot
      ensures y in Entries(s) <==> y == Slot(1, 1, 0) || y == Slot(1, 1, 1)
    {
      assert Maps(s, y.pid, y.d, y.t) <==> y == Slot(1, 1, 0) || y == Slot(1, 1, 1);
      assert y.pid == 1 && y.d < 1024 && y.t < 1024 ==> y in Slots(s);
    }
  }

  lemma TwoPages(e: map<Slot, Word>, counts: seq<int>, role: seq<Role>)
    requires e == map[Slot(1, 1, 0) := Word(2, true, false, true, 0), Slot(1, 1, 1) := Word(3, true, true, true, 0)]
    requires counts == [1, 1, 1, 1, 0, 0] && role == [DirOf(1), TableOf(1, 1), Page, Page, Unused, Unused]
    ensures EntriesOk(e, counts, role)
  {
    assert Owners(e, 2) == {Slot(1, 1, 0)} && Owners(e, 3) == {Slot(1, 1, 1)};
  }

  lemma InvIsPossible()
    ensures Inv(SmallMachine()) && Slot(1, 1, 0) in Entries(SmallMachine())
  {
    SmallEntries();
    var s := SmallMachine();
    TwoPages(Entries(s), s.counts, s.role);
    hide Entries, Shape, Separate, EntriesOk, Only, SmallTable;
    assert Readable(1024, s.mem, Entries(s));
  }
}
