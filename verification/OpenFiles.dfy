/** Descriptor tables and the use counts of open files (sys/fs/sys1.c, sys/fs/fcntl.c,
    sys/kernel/proc.c). System calls are atomic steps. */
module OpenFiles {

  const NR_OPEN: nat := 20
  const NR_FILE: nat := 64
  const NONE: int := -1
  const EBADF: int := 8
  const EMFILE: int := 32
  const ENFILE: int := 40

  /** Per process slot: file_table, with -1 for NULL and else an index into the table of open
      files; close_on_exec; and whether the slot holds a process that has not exited. Per open
      file: f_count. */
  datatype Files = Files(rows: seq<seq<int>>, flags: seq<seq<bool>>, counts: seq<int>, live: seq<bool>, current: nat)

  predicate IsRow(row: seq<int>) {
    |row| == NR_OPEN && forall fd | 0 <= fd < NR_OPEN :: NONE <= row[fd] < NR_FILE
  }

  predicate Shaped(s: Files) {
    && |s.flags| == |s.live| == |s.rows| && s.current < |s.rows|
    && (forall p | 0 <= p < |s.rows| :: IsRow(s.rows[p]) && |s.flags[p]| == NR_OPEN)
    && |s.counts| == NR_FILE
  }

  /** How often f occurs in one table... */
  function InRow(row: seq<int>, f: int): nat {
    multiset(row)[f]
  }

  /** ...and in all of them. */
  function Refs(rows: seq<seq<int>>, f: int): nat {
    if rows == [] then 0 else InRow(rows[0], f) + Refs(rows[1..], f)
  }

  function Empty(): seq<int> {
    seq(NR_OPEN, _ => NONE)
  }

  /** f_count is the number of slots that point to the file, and only processes that have not
      exited have any. */
  predicate Inv(s: Files) {
    && Shaped(s)
    && (forall f | 0 <= f < NR_FILE :: s.counts[f] == Refs(s.rows, f))
    && (forall p | 0 <= p < |s.rows| && !s.live[p] :: s.rows[p] == Empty())
    && s.live[s.current]
  }

  // ---------------------------------------------------------------------------------
  // Counting
  // ---------------------------------------------------------------------------------

  lemma {:induction false} RefsUpdate(rows: seq<seq<int>>, p: nat, row: seq<int>, f: int)
    requires p < |rows|
    ensures Refs(rows[p := row], f) == Refs(rows, f) - InRow(rows[p], f) + InRow(row, f)
  {
    if p == 0 {
      assert rows[0 := row][1..] == rows[1..];
    } else {
      assert rows[p := row][1..] == rows[1..][p - 1 := row];
      RefsUpdate(rows[1..], p - 1, row, f);
    }
  }

  lemma RowUpdate(row: seq<int>, fd: nat, g: int, f: int)
    requires fd < |row|
    ensures InRow(row[fd := g], f) == InRow(row, f) - (if f == row[fd] then 1 else 0) + (if f == g then 1 else 0)
  {
  }

  lemma EmptyRow(f: int)
    requires f != NONE
    ensures InRow(Empty(), f) == 0
  {
    assert f !in Empty();
  }

  lemma {:induction false} RefsOne(rows: seq<seq<int>>, p: nat, fd: nat, f: int)
    requires p < |rows| && fd < |rows[p]| && rows[p][fd] == f
    ensures Refs(rows, f) > 0
  {
    if p == 0 {
      assert f in rows[0];
    } else {
      RefsOne(rows[1..], p - 1, fd, f);
    }
  }

  /** A file whose count is 0 is in no table, so get_free_file hands out unreferenced files. */
  lemma FreeFileIsUnreferenced(s: Files, f: nat, p: nat, fd: nat)
    requires Inv(s) && f < NR_FILE && s.counts[f] == 0 && p < |s.rows| && fd < NR_OPEN
    ensures s.rows[p][fd] != f
  {
    if s.rows[p][fd] == f {
      RefsOne(s.rows, p, fd, f);
    }
  }

  // ---------------------------------------------------------------------------------
  // The calls on values
  // ---------------------------------------------------------------------------------

  function Table(s: Files): seq<int>
    requires Shaped(s)
  {
    s.rows[s.current]
  }

  /** The table of the current process with slot fd pointing to g, and the counts adjusted. */
  function Pointing(s: Files, fd: nat, g: int): (t: Files)
    requires Shaped(s) && fd < NR_OPEN && NONE <= g < NR_FILE
    ensures Shaped(t)
  {
    var f := Table(s)[fd];
    var counts := if f == NONE then s.counts else s.counts[f := s.counts[f] - 1];
    s.(rows := s.rows[s.current := Table(s)[fd := g]],
       counts := if g == NONE then counts else counts[g := counts[g] + 1])
  }

  lemma PointingKeepsInv(s: Files, fd: nat, g: int)
    requires Inv(s) && fd < NR_OPEN && NONE <= g < NR_FILE
    ensures Inv(Pointing(s, fd, g))
  {
    var t := Pointing(s, fd, g);
    forall f | 0 <= f < NR_FILE
      ensures t.counts[f] == Refs(t.rows, f)
    {
      RefsUpdate(s.rows, s.current, Table(s)[fd := g], f);
      RowUpdate(Table(s), fd, g, f);
    }
  }

  /** The first NULL slot from `from` on, or NR_OPEN. */
  function LowestFree(row: seq<int>, from: nat): (fd: nat)
    requires |row| == NR_OPEN
    ensures from <= fd && (fd < NR_OPEN ==> row[fd] == NONE)
    ensures forall i | from <= i < fd && i < NR_OPEN :: row[i] != NONE
    decreases NR_OPEN - from
  {
    if from >= NR_OPEN || row[from] == NONE then from else LowestFree(row, from + 1)
  }

  predicate IsOpen(s: Files, fd: int)
    requires Shaped(s)
  {
    0 <= fd < NR_OPEN && Table(s)[fd] != NONE
  }

  /** _dup, for a start of 0 or more where it is looked at. A start past the table finds no
      slot. */
  function Dup(s: Files, fd: int, from: int): (Files, int)
    requires Shaped(s) && (IsOpen(s, fd) ==> from >= 0)
  {
    if !IsOpen(s, fd) then (s, -EBADF)
    else
      var free := LowestFree(Table(s), from);
      if free >= NR_OPEN then (s, -EMFILE) else (Pointing(s, free, Table(s)[fd]), free)
  }

  /** kernel_close */
  function Close(s: Files, fd: int): (Files, int)
    requires Shaped(s)
  {
    if !IsOpen(s, fd) then (s, -EBADF) else (Pointing(s, fd, NONE), 0)
  }

  /** kernel_dup2, for a first descriptor inside the table: the code does not check that. */
  function Dup2(s: Files, fd1: int, fd2: int): (Files, int)
    requires Shaped(s) && (0 <= fd2 < NR_OPEN ==> 0 <= fd1 < NR_OPEN)
  {
    if !(0 <= fd2 < NR_OPEN) then (s, -EBADF)
    else if Table(s)[fd1] != NONE && fd1 == fd2 then (s, fd1)
    else if Table(s)[fd1] == NONE then (s, -EBADF)
    else Dup(Close(s, fd2).0, fd1, fd2)
  }

  /** The first file that is not in use, or NR_FILE. */
  function FreeFile(counts: seq<int>, from: nat): (f: nat)
    requires |counts| == NR_FILE && from <= NR_FILE
    ensures from <= f <= NR_FILE && (f < NR_FILE ==> counts[f] == 0)
    ensures forall i | from <= i < f :: counts[i] != 0
    decreases NR_FILE - from
  {
    if from == NR_FILE || counts[from] == 0 then from else FreeFile(counts, from + 1)
  }

  /** kernel_open once the path is known, for a process with a free slot below NR_OPEN; `err`
      is what the file system reports, 0 if it opens the file. */
  function Open(s: Files, err: int): (Files, int)
    requires Shaped(s) && LowestFree(Table(s), 0) < NR_OPEN
  {
    var fd := LowestFree(Table(s), 0);
    var f := FreeFile(s.counts, 0);
    if f == NR_FILE then (s, -ENFILE)
    else if err != 0 then (s, err)
    else (s.(rows := s.rows[s.current := Table(s)[fd := f]], counts := s.counts[f := 1]), fd)
  }

  /** The slots below n that `which` selects are closed. */
  function CloseSome(s: Files, which: seq<bool>, n: nat): (t: Files)
    requires Shaped(s) && |which| == NR_OPEN && n <= NR_OPEN
    ensures Shaped(t) && t.current == s.current && t.live == s.live && t.flags == s.flags
  {
    if n == 0 then s
    else
      var t := CloseSome(s, which, n - 1);
      if which[n - 1] then Close(t, n - 1).0 else t
  }

  /** close-on-exec in kernel_execve */
  function Exec(s: Files): Files
    requires Shaped(s)
  {
    CloseSome(s, s.flags[s.current], NR_OPEN)
  }

  function Every(): seq<bool> {
    seq(NR_OPEN, _ => true)
  }

  /** kernel_exit: everything is closed, and another process runs next. */
  function Exit(s: Files, next: nat): Files
    requires Shaped(s) && next < |s.rows|
  {
    var t := CloseSome(s, Every(), NR_OPEN);
    t.(live := t.live[t.current := false], current := next)
  }

  /** The counts once the first n slots of a table have been counted once more. */
  function Recounted(counts: seq<int>, row: seq<int>, n: nat): (r: seq<int>)
    requires IsRow(row) && |counts| == NR_FILE && n <= NR_OPEN
    ensures |r| == NR_FILE
  {
    if n == 0 then counts
    else
      var c := Recounted(counts, row, n - 1);
      var f := row[n - 1];
      if f == NONE then c else c[f := c[f] + 1]
  }

  /** The file part of kernel_fork: the child gets a copy of the table. */
  function Fork(s: Files, child: nat): (t: Files)
    requires Shaped(s) && child < |s.rows|
    ensures Shaped(t)
  {
    s.(rows := s.rows[child := Table(s)], flags := s.flags[child := s.flags[s.current]],
       live := s.live[child := true], counts := Recounted(s.counts, Table(s), NR_OPEN))
  }

  // ---------------------------------------------------------------------------------
  // What the calls keep
  // ---------------------------------------------------------------------------------

  lemma CloseKeepsInv(s: Files, fd: int)
    requires Inv(s)
    ensures Inv(Close(s, fd).0)
  {
    if IsOpen(s, fd) {
      PointingKeepsInv(s, fd, NONE);
    }
  }

  lemma DupKeepsInv(s: Files, fd: int, from: int)
    requires Inv(s) && (IsOpen(s, fd) ==> from >= 0)
    ensures Inv(Dup(s, fd, from).0)
  {
    if IsOpen(s, fd) && LowestFree(Table(s), from) < NR_OPEN {
      PointingKeepsInv(s, LowestFree(Table(s), from), Table(s)[fd]);
    }
  }

  /** dup2 returns exactly its second argument, where it fails for neither; the slot then
      points to the file of the first. */
  lemma Dup2Effect(s: Files, fd1: int, fd2: int)
    requires Inv(s) && (0 <= fd2 < NR_OPEN ==> 0 <= fd1 < NR_OPEN)
    ensures var (t, r) := Dup2(s, fd1, fd2);
      && Inv(t)
      && (IsOpen(s, fd1) && 0 <= fd2 < NR_OPEN ==>
            r == fd2 && Table(t) == Table(s)[fd2 := Table(s)[fd1]] && t == s.(rows := t.rows, counts := t.counts))
      && (!(IsOpen(s, fd1) && 0 <= fd2 < NR_OPEN) ==> r == -EBADF && t == s)
  {
    CloseKeepsInv(s, fd2);
    var closed := Close(s, fd2).0;
    if fd2 >= 0 {
      DupKeepsInv(closed, fd1, fd2);
    }
    if IsOpen(s, fd1) && 0 <= fd2 < NR_OPEN && fd1 != fd2 {
      assert LowestFree(Table(closed), fd2) == fd2;
      assert Table(s)[fd2 := NONE][fd2 := Table(s)[fd1]] == Table(s)[fd2 := Table(s)[fd1]];
    } else if IsOpen(s, fd1) && fd1 == fd2 {
      assert Table(s)[fd2 := Table(s)[fd1]] == Table(s);
    }
  }

  lemma OpenKeepsInv(s: Files, err: int)
    requires Inv(s) && LowestFree(Table(s), 0) < NR_OPEN
    ensures Inv(Open(s, err).0)
  {
    var fd, f := LowestFree(Table(s), 0), FreeFile(s.counts, 0);
    if f < NR_FILE && err == 0 {
      PointingKeepsInv(s, fd, f);
      assert Open(s, err).0 == Pointing(s, fd, f);
    }
  }

  /** open returns the lowest NULL slot, which then names a file that was not in use and now is,
      once; or it fails, because every file is in use or the file system says so, and changes
      nothing. */
  lemma OpenMeans(s: Files, err: int)
    requires Inv(s) && NONE in Table(s)
    ensures LowestFree(Table(s), 0) < NR_OPEN
    ensures var (t, fd) := Open(s, err); var full := forall f | 0 <= f < NR_FILE :: s.counts[f] != 0;
      && (full ==> (t, fd) == (s, -40))
      && (!full && err != 0 ==> (t, fd) == (s, err))
      && (!full && err == 0 ==>
            && 0 <= fd < 20 && Table(s)[fd] == NONE && (forall i | 0 <= i < fd :: Table(s)[i] != NONE)
            && var f := Table(t)[fd];
               && 0 <= f < 64 && s.counts[f] == 0 && t.counts == s.counts[f := 1]
               && t == s.(rows := s.rows[s.current := Table(s)[fd := f]], counts := t.counts))
  {
    FindFdStaysInside(s);
  }

  /** close clears the slot and counts its file down once, or fails and changes nothing. */
  lemma CloseMeans(s: Files, fd: int)
    requires Inv(s)
    ensures var (t, r) := Close(s, fd);
      if 0 <= fd < 20 && Table(s)[fd] != NONE then
        var f := Table(s)[fd];
        && r == 0 && s.counts[f] > 0
        && t == s.(rows := s.rows[s.current := Table(s)[fd := NONE]], counts := s.counts[f := s.counts[f] - 1])
      else (t, r) == (s, -8)
  {
    if IsOpen(s, fd) {
      RefsOne(s.rows, s.current, fd, Table(s)[fd]);
    }
  }

  /** dup fails exactly for a descriptor that is not open, or if no slot from its start on is
      NULL, and then changes nothing; else one more slot names the file. */
  lemma DupMeans(s: Files, fd: int, from: int)
    requires Inv(s) && (IsOpen(s, fd) ==> from >= 0)
    ensures var (t, r) := Dup(s, fd, from);
      if !(0 <= fd < 20 && Table(s)[fd] != NONE) then (t, r) == (s, -8)
      else if forall i | from <= i < 20 :: Table(s)[i] != NONE then (t, r) == (s, -32)
      else
        var f := Table(s)[fd];
        from <= r < 20 && t == s.(rows := s.rows[s.current := Table(s)[r := f]], counts := s.counts[f := s.counts[f] + 1])
  {
  }

  lemma {:induction false} CloseSomeEffect(s: Files, which: seq<bool>, n: nat)
    requires Inv(s) && |which| == NR_OPEN && n <= NR_OPEN
    ensures var t := CloseSome(s, which, n);
      && Inv(t)
      && t.rows == s.rows[s.current := Table(t)]
      && forall fd | 0 <= fd < NR_OPEN :: Table(t)[fd] == if fd < n && which[fd] then NONE else Table(s)[fd]
  {
    if n > 0 {
      CloseSomeEffect(s, which, n - 1);
      CloseKeepsInv(CloseSome(s, which, n - 1), n - 1);
    }
  }

  /** An exiting process leaves an empty table. */
  lemma ExitKeepsInv(s: Files, next: nat)
    requires Inv(s) && next < |s.rows| && s.live[next] && next != s.current
    ensures Inv(Exit(s, next))
    ensures Exit(s, next) ==
      s.(rows := s.rows[s.current := Empty()], counts := Exit(s, next).counts, live := s.live[s.current := false], current := next)
  {
    CloseSomeEffect(s, Every(), NR_OPEN);
    assert Table(CloseSome(s, Every(), NR_OPEN)) == Empty();
  }

  /** execve closes exactly the descriptors whose flag is set. */
  lemma ExecCloses(s: Files)
    requires Inv(s)
    ensures var t := Exec(s);
      && Inv(t) && t == s.(rows := s.rows[s.current := Table(t)], counts := t.counts)
      && forall fd | 0 <= fd < 20 :: Table(t)[fd] == if s.flags[s.current][fd] then NONE else Table(s)[fd]
  {
    CloseSomeEffect(s, s.flags[s.current], NR_OPEN);
  }

  lemma {:induction false} RecountedIs(counts: seq<int>, row: seq<int>, n: nat, f: nat)
    requires IsRow(row) && |counts| == NR_FILE && n <= NR_OPEN && f < NR_FILE
    ensures Recounted(counts, row, n)[f] == counts[f] + InRow(row[..n], f)
  {
    if n > 0 {
      RecountedIs(counts, row, n - 1, f);
      assert row[..n] == row[..n - 1] + [row[n - 1]];
    }
  }

  lemma ForkKeepsInv(s: Files, child: nat)
    requires Inv(s) && child < |s.rows| && !s.live[child]
    ensures Inv(Fork(s, child))
  {
    var t := Fork(s, child);
    forall f | 0 <= f < NR_FILE
      ensures t.counts[f] == Refs(t.rows, f)
    {
      RefsUpdate(s.rows, child, Table(s), f);
      EmptyRow(f);
      RecountedIs(s.counts, Table(s), NR_OPEN, f);
      assert Table(s)[..NR_OPEN] == Table(s);
    }
  }

  /** The child of a fork has the parent's table and flags, and each file is counted once more
      for each slot that names it. */
  lemma ForkCopies(s: Files, child: nat)
    requires Inv(s) && child < |s.rows| && !s.live[child]
    ensures var t := Fork(s, child);
      && t == s.(rows := s.rows[child := s.rows[s.current]], flags := s.flags[child := s.flags[s.current]],
                 live := s.live[child := true], counts := t.counts)
      && forall f | 0 <= f < NR_FILE :: t.counts[f] == s.counts[f] + |set fd | 0 <= fd < NR_OPEN && Table(s)[fd] == f|
  {
    forall f | 0 <= f < NR_FILE
      ensures Fork(s, child).counts[f] == s.counts[f] + |set fd | 0 <= fd < NR_OPEN && Table(s)[fd] == f|
    {
      RecountedIs(s.counts, Table(s), NR_OPEN, f);
      assert Table(s)[..NR_OPEN] == Table(s);
      SlotsOf(Table(s), f);
      assert (set fd | 0 <= fd < NR_OPEN && Table(s)[fd] == f) == set fd | 0 <= fd < |Table(s)| && Table(s)[fd] == f;
    }
  }

  lemma {:induction false} SlotsOf(row: seq<int>, f: int)
    ensures InRow(row, f) == |set fd | 0 <= fd < |row| && row[fd] == f|
  {
    if row != [] {
      var n := |row| - 1;
      var init := row[..n];
      SlotsOf(init, f);
      assert row == init + [row[n]];
      var a, b := set fd | 0 <= fd < |row| && row[fd] == f, set fd | 0 <= fd < n && init[fd] == f;
      assert a == if row[n] == f then b + {n} else b;
    }
  }

  // ---------------------------------------------------------------------------------
  // Runs
  // ---------------------------------------------------------------------------------

  /** fcntl F_DUPFD and F_DUPFD_CLOEXEC: the latter clears the flag of the new descriptor. */
  function DupFd(s: Files, fd: int, from: int, cloexec: bool): (Files, int)
    requires Shaped(s) && (IsOpen(s, fd) ==> from >= 0)
  {
    var (t, r) := Dup(s, fd, from);
    if cloexec && r >= 0 then (t.(flags := t.flags[t.current := t.flags[t.current][r := false]]), r) else (t, r)
  }

  /** fcntl F_SETFD */
  function SetFd(s: Files, fd: int, on: bool): (Files, int)
    requires Shaped(s)
  {
    if !IsOpen(s, fd) then (s, -EBADF) else (s.(flags := s.flags[s.current := s.flags[s.current][fd := on]]), 0)
  }

  /** The flag of a new descriptor: F_DUPFD_CLOEXEC clears it, whatever it was, and F_DUPFD
      leaves what an earlier descriptor of that number had. */
  lemma DupFdFlag(s: Files, fd: int, from: int, cloexec: bool)
    requires Inv(s) && (IsOpen(s, fd) ==> from >= 0)
    ensures var (t, r) := DupFd(s, fd, from, cloexec);
      r >= 0 ==>
        && r < NR_OPEN && t.flags[t.current][r] == (if cloexec then false else s.flags[s.current][r])
        && forall i | 0 <= i < NR_OPEN && i != r :: t.flags[t.current][i] == s.flags[s.current][i]
  {
    DupKeepsInv(s, fd, from);
  }

  /** A descriptor whose flag is set or cleared is closed by execve, or not, accordingly. */
  lemma FlagDecidesExec(s: Files, fd: int, on: bool, i: nat)
    requires Inv(s) && i < 20
    ensures var (t, r) := SetFd(s, fd, on);
      && Inv(t)
      && (r == 0 <==> IsOpen(s, fd)) && (r != 0 ==> (t, r) == (s, -8))
      && (Table(Exec(t))[i] == NONE <==> Table(s)[i] == NONE || if i == fd then on else s.flags[s.current][i])
  {
    ExecCloses(SetFd(s, fd, on).0);
  }

  datatype Call = OpenCall(err: int) | DupCall(fd: int, from: int, cloexec: bool) | Dup2Call(fd1: int, fd2: int)
                | CloseCall(fd: int) | SetFdCall(fd: int, on: bool) | ExecCall | ForkCall(child: nat)
                | ExitCall(next: nat) | SwitchTo(next: nat)

  /** The call stays inside the tables: open finds a slot, a start for dup and a first argument
      for dup2 that are looked at are slots. And fork's child slot holds no process, and what
      runs next is another process. */
  predicate Enabled(s: Files, c: Call)
    requires Shaped(s)
  {
    match c
    case OpenCall(_) => LowestFree(Table(s), 0) < NR_OPEN
    case DupCall(fd, from, _) => IsOpen(s, fd) ==> from >= 0
    case Dup2Call(fd1, fd2) => 0 <= fd2 < NR_OPEN ==> 0 <= fd1 < NR_OPEN
    case ForkCall(child) => child < |s.rows| && !s.live[child]
    case ExitCall(next) => next < |s.rows| && s.live[next] && next != s.current
    case SwitchTo(next) => next < |s.rows| && s.live[next]
    case _ => true
  }

  function Step(s: Files, c: Call): (t: Files)
    requires Inv(s) && Enabled(s, c)
    ensures Inv(t)
  {
    match c
    case OpenCall(err) => OpenKeepsInv(s, err); Open(s, err).0
    case DupCall(fd, from, cloexec) => DupKeepsInv(s, fd, from); DupFd(s, fd, from, cloexec).0
    case Dup2Call(fd1, fd2) => Dup2Effect(s, fd1, fd2); Dup2(s, fd1, fd2).0
    case CloseCall(fd) => CloseKeepsInv(s, fd); Close(s, fd).0
    case SetFdCall(fd, on) => SetFd(s, fd, on).0
    case ExecCall => CloseSomeEffect(s, s.flags[s.current], NR_OPEN); Exec(s)
    case ForkCall(child) => ForkKeepsInv(s, child); Fork(s, child)
    case ExitCall(next) => ExitKeepsInv(s, next); Exit(s, next)
    case SwitchTo(next) => s.(current := next)
  }

  predicate AllEnabled(s: Files, calls: seq<Call>)
    requires Inv(s)
    decreases |calls|
  {
    calls == [] || (Enabled(s, calls[0]) && AllEnabled(Step(s, calls[0]), calls[1..]))
  }

  /** Any run of calls keeps every f_count equal to the number of slots that point to the file. */
  function After(s: Files, calls: seq<Call>): (t: Files)
    requires Inv(s) && AllEnabled(s, calls)
    ensures Inv(t)
    decreases |calls|
  {
    if calls == [] then s else After(Step(s, calls[0]), calls[1..])
  }

  lemma PointingBack(s: Files, fd: nat, f: int)
    requires Shaped(s) && fd < NR_OPEN && Table(s)[fd] == NONE && 0 <= f < NR_FILE
    ensures Pointing(Pointing(s, fd, f), fd, NONE) == s
  {
    var row := Table(s);
    assert row[fd := f][fd := NONE] == row;
    assert s.rows[s.current := row[fd := f]][s.current := row] == s.rows;
    var n := s.counts[f];
    assert s.counts[f := n + 1][f := n] == s.counts;
  }

  /** _dup returns the lowest free descriptor from its start, which then names the same file;
      closing it again restores everything. */
  lemma CloseUndoesDup(s: Files, fd: int, from: int)
    requires Inv(s) && (IsOpen(s, fd) ==> from >= 0)
    ensures var (t, r) := Dup(s, fd, from);
      r >= 0 ==>
        && from <= r < NR_OPEN && Table(s)[r] == NONE && Table(t)[r] == Table(s)[fd]
        && (forall i | from <= i < r :: Table(s)[i] != NONE)
        && Close(t, r) == (s, 0)
  {
    var (t, r) := Dup(s, fd, from);
    if r >= 0 {
      PointingBack(s, r, Table(s)[fd]);
    }
  }

  /** A child that exits at once gives every file its count back. */
  lemma ExitUndoesFork(s: Files, child: nat)
    requires Inv(s) && child < |s.rows| && !s.live[child]
    ensures Inv(Fork(s, child).(current := child))
    ensures var t := Exit(Fork(s, child).(current := child), s.current);
      t.rows == s.rows && t.counts == s.counts && t.live == s.live && t.current == s.current
  {
    ForkKeepsInv(s, child);
    var forked := Fork(s, child).(current := child);
    ExitKeepsInv(forked, s.current);
    var t := Exit(forked, s.current);
    assert t.rows == s.rows;
    CloseSomeEffect(forked, Every(), NR_OPEN);
    assert t.live == s.live;
    assert forall f | 0 <= f < NR_FILE :: t.counts[f] == Refs(t.rows, f) == s.counts[f];
  }

  /** The search of open finds a NULL slot inside the table exactly if the table has one;
      otherwise it goes on to NR_FILE, behind the table. */
  lemma FindFdStaysInside(s: Files)
    requires Inv(s)
    ensures LowestFree(Table(s), 0) < NR_OPEN <==> NONE in Table(s)
  {
    var fd := LowestFree(Table(s), 0);
  }

  lemma {:induction false} OneMoreCall(s: Files, calls: seq<Call>, c: Call)
    requires Inv(s) && AllEnabled(s, calls) && Enabled(After(s, calls), c)
    ensures AllEnabled(s, calls + [c]) && After(s, calls + [c]) == Step(After(s, calls), c)
    decreases |calls|
  {
    if calls == [] {
      assert [c][1..] == [];
    } else {
      assert (calls + [c])[1..] == calls[1..] + [c];
      OneMoreCall(Step(s, calls[0]), calls[1..], c);
    }
  }

  lemma {:induction false} NoRefs(rows: seq<seq<int>>, f: int)
    requires f != NONE && forall p | 0 <= p < |rows| :: rows[p] == Empty()
    ensures Refs(rows, f) == 0
  {
    if rows != [] {
      EmptyRow(f);
      NoRefs(rows[1..], f);
    }
  }

  /** One process, with file 0 in its first n slots. */
  function Opened(n: nat): Files
    requires n <= NR_OPEN
  {
    Files([seq(NR_OPEN, i => if i < n then 0 else NONE)], [seq(NR_OPEN, _ => false)],
          seq(NR_FILE, f => if f == 0 then n else 0), [true], 0)
  }

  /** An open, followed by dups of the descriptor it returned. */
  function OpenAndDup(n: nat): seq<Call> {
    if n == 0 then [] else OpenAndDup(n - 1) + [if n == 1 then OpenCall(0) else DupCall(0, 0, false)]
  }

  lemma OpenedStep(n: nat)
    requires n < NR_OPEN && Inv(Opened(n))
    ensures var c := if n == 0 then OpenCall(0) else DupCall(0, 0, false);
      Enabled(Opened(n), c) && Step(Opened(n), c) == Opened(n + 1)
  {
    var s := Opened(n);
    assert Table(s)[n] == NONE && forall i | 0 <= i < n :: Table(s)[i] == 0;
    assert LowestFree(Table(s), 0) == n;
    assert n == 0 ==> FreeFile(s.counts, 0) == 0;
    assert Table(s)[n := 0] == Table(Opened(n + 1));
    assert s.counts[0 := n + 1] == Opened(n + 1).counts;
  }

  lemma NothingOpened()
    ensures Inv(Opened(0))
  {
    assert Table(Opened(0)) == Empty();
    forall f | 0 <= f < NR_FILE ensures Refs(Opened(0).rows, f) == 0 {
      NoRefs(Opened(0).rows, f);
    }
  }

  ghost predicate LeadsTo(s: Files, calls: seq<Call>, t: Files) {
    Inv(s) && AllEnabled(s, calls) && After(s, calls) == t
  }

  lemma LeadsOn(s: Files, calls: seq<Call>, t: Files, c: Call)
    requires LeadsTo(s, calls, t) && Inv(t) && Enabled(t, c)
    ensures LeadsTo(s, calls + [c], Step(t, c))
  {
    OneMoreCall(s, calls, c);
  }

  lemma NoCalls(s: Files)
    requires Inv(s)
    ensures LeadsTo(s, [], s)
  {
  }

  lemma {:induction false} OpenedByCalls(n: nat)
    requires n <= NR_OPEN
    ensures LeadsTo(Opened(0), OpenAndDup(n), Opened(n)) && Inv(Opened(n))
  {
    hide Inv, Opened, LeadsTo, Enabled, Step;
    if n == 0 {
      NothingOpened();
      NoCalls(Opened(0));
    } else {
      OpenedByCalls(n - 1);
      OpenedStep(n - 1);
      LeadsOn(Opened(0), OpenAndDup(n - 1), Opened(n - 1), if n == 1 then OpenCall(0) else DupCall(0, 0, false));
    }
  }

  /** One process opens a file and duplicates the descriptor until its table is full: all these
      calls stay inside the table, and the next open leaves it. */
  lemma FullTableOverruns()
    ensures Inv(Opened(0)) && Table(Opened(0)) == Empty()
    ensures AllEnabled(Opened(0), OpenAndDup(NR_OPEN))
    ensures !Enabled(After(Opened(0), OpenAndDup(NR_OPEN)), OpenCall(0))
  {
    OpenedByCalls(NR_OPEN);
    FindFdStaysInside(Opened(NR_OPEN));
  }

  // ---------------------------------------------------------------------------------
  // The code
  // ---------------------------------------------------------------------------------

  class Tables {
    const rows: array<seq<int>>
    const flags: array<seq<bool>>
    const counts: array<int>
    const live: array<bool>
    var current: nat

    ghost function Value(): Files
      reads this, rows, flags, counts, live
    {
      Files(rows[..], flags[..], counts[..], live[..], current)
    }

    /** One process, and no file open. */
    constructor (processes: nat)
      requires processes > 0
      ensures Inv(Value()) && current == 0 && fresh(rows) && fresh(flags) && fresh(counts) && fresh(live)
      ensures rows.Length == processes
    {
      rows := new seq<int>[processes](_ => Empty());
      flags := new seq<bool>[processes](_ => seq(NR_OPEN, _ => false));
      counts := new int[NR_FILE](_ => 0);
      live := new bool[processes](i => i == 0);
      current := 0;
      new;
      forall f | 0 <= f < NR_FILE
        ensures Refs(rows[..], f) == 0
      {
        NoRefs(rows[..], f);
      }
    }

    method GetFreeFile() returns (f: nat)
      requires counts.Length == NR_FILE
      ensures f == FreeFile(counts[..], 0)
    {
      f := 0;
      while f < NR_FILE
        invariant f <= NR_FILE && FreeFile(counts[..], 0) == FreeFile(counts[..], f)
      {
        if counts[f] == 0 {
          return;
        }
        f := f + 1;
      }
    }

    /** The loop runs to NR_FILE; `stray` tells that it has left the table. */
    method FindFd() returns (fd: nat, stray: bool)
      requires Inv(Value())
      ensures stray <==> NONE !in Table(Value())
      ensures !stray ==> fd == LowestFree(Table(Value()), 0)
    {
      FindFdStaysInside(Value());
      stray := false;
      fd := 0;
      while fd < NR_FILE
        invariant fd <= LowestFree(Table(Value()), 0) == LowestFree(Table(Value()), fd) && fd <= NR_OPEN
      {
        if fd >= NR_OPEN {
          return fd, true;
        }
        if rows[current][fd] == NONE {
          return;
        }
        fd := fd + 1;
      }
    }

    /** `err` is what the file system reports, 0 if it opens the file. */
    method KernelOpen(err: int) returns (ret: int, stray: bool)
      requires Inv(Value())
      modifies rows, counts
      ensures stray <==> !Enabled(old(Value()), OpenCall(err))
      ensures stray ==> Value() == old(Value())
      ensures !stray ==> (Value(), ret) == Open(old(Value()), err)
    {
      FindFdStaysInside(Value());
      var fd;
      fd, stray := FindFd();
      if stray {
        return 0, true;
      }
      var f := GetFreeFile();
      if f == NR_FILE {
        return -ENFILE, false;
      }
      if err != 0 {
        return err, false;
      }
      rows[current] := rows[current][fd := f];
      counts[f] := 1;
      ret := fd;
    }

    /** The panic of kernel_close cannot happen: the slot itself is counted. */
    method KernelClose(fd: int) returns (ret: int)
      requires Inv(Value())
      modifies rows, counts
      ensures (Value(), ret) == Close(old(Value()), fd)
    {
      if fd >= NR_OPEN || fd < 0 {
        return -EBADF;
      }
      var f := rows[current][fd];
      if f == NONE {
        return -EBADF;
      }
      RefsOne(rows[..], current, fd, f);
      assert counts[f] != 0;
      counts[f] := counts[f] - 1;
      rows[current] := rows[current][fd := NONE];
      ret := 0;
    }

    method DupFrom(fd: int, from: int, cloexec: bool) returns (ret: int, stray: bool)
      requires Inv(Value())
      modifies rows, counts, flags
      ensures stray <==> !Enabled(old(Value()), DupCall(fd, from, cloexec))
      ensures stray ==> Value() == old(Value())
      ensures !stray ==> (Value(), ret) == DupFd(old(Value()), fd, from, cloexec)
    {
      stray := false;
      if fd < 0 || fd >= NR_OPEN {
        return -EBADF, false;
      }
      var f := rows[current][fd];
      if f == NONE {
        return -EBADF, false;
      }
      if from < 0 {
        return 0, true;
      }
      var i := from;
      while i < NR_OPEN
        invariant from <= i && LowestFree(rows[current], from) == LowestFree(rows[current], i)
      {
        if rows[current][i] == NONE {
          break;
        }
        i := i + 1;
      }
      if i >= NR_OPEN {
        return -EMFILE, false;
      }
      rows[current] := rows[current][i := f];
      counts[f] := counts[f] + 1;
      if cloexec {
        flags[current] := flags[current][i := false];
      }
      ret := i;
    }

    method KernelDup2(fd1: int, fd2: int) returns (ret: int, stray: bool)
      requires Inv(Value())
      modifies rows, counts, flags
      ensures stray <==> !Enabled(old(Value()), Dup2Call(fd1, fd2))
      ensures stray ==> Value() == old(Value())
      ensures !stray ==> (Value(), ret) == Dup2(old(Value()), fd1, fd2)
    {
      if fd2 < 0 || fd2 >= NR_OPEN {
        return -EBADF, false;
      }
      if fd1 < 0 || fd1 >= NR_OPEN {
        return 0, true;
      }
      var f := rows[current][fd1];
      if f != NONE && fd1 == fd2 {
        return fd1, false;
      }
      if f == NONE {
        return -EBADF, false;
      }
      CloseKeepsInv(Value(), fd2);
      var _ := KernelClose(fd2);
      ret, stray := DupFrom(fd1, fd2, false);
    }

    method FcntlSetFd(fd: int, on: bool) returns (ret: int)
      requires Inv(Value())
      modifies flags
      ensures (Value(), ret) == SetFd(old(Value()), fd, on)
    {
      if fd < 0 || fd >= NR_OPEN || rows[current][fd] == NONE {
        return -EBADF;
      }
      flags[current] := flags[current][fd := on];
      ret := 0;
    }

    /** The loop at the end of kernel_execve. */
    method CloseOnExec()
      requires Inv(Value())
      modifies rows, counts
      ensures Value() == Exec(old(Value()))
    {
      ghost var s := Value();
      var i := 0;
      while i < NR_OPEN
        invariant i <= NR_OPEN && Inv(Value()) && Value() == CloseSome(s, s.flags[s.current], i)
      {
        if flags[current][i] {
          CloseKeepsInv(Value(), i);
          var _ := KernelClose(i);
        }
        i := i + 1;
      }
    }

    method KernelExit(next: nat)
      requires Inv(Value()) && next < live.Length && live[next] && next != current
      modifies rows, counts, live, `current
      ensures Value() == Exit(old(Value()), next)
    {
      ghost var s := Value();
      var i := 0;
      while i < NR_OPEN
        invariant i <= NR_OPEN && Inv(Value()) && Value() == CloseSome(s, Every(), i)
      {
        if rows[current][i] != NONE {
          CloseKeepsInv(Value(), i);
          var _ := KernelClose(i);
        }
        i := i + 1;
      }
      live[current] := false;
      current := next;
    }

    method KernelFork(child: nat)
      requires Inv(Value()) && child < live.Length && !live[child]
      modifies rows, flags, counts, live
      ensures Value() == Fork(old(Value()), child)
    {
      ghost var s := Value();
      rows[child], flags[child] := rows[current], flags[current];
      live[child] := true;
      var i := 0;
      while i < NR_OPEN
        invariant i <= NR_OPEN && Value() == Fork(s, child).(counts := Recounted(s.counts, Table(s), i))
      {
        if rows[current][i] != NONE {
          counts[rows[current][i]] := counts[rows[current][i]] + 1;
        }
        i := i + 1;
      }
    }

    /** One call. Nothing happens where it would leave the tables, or cannot be made. */
    method Perform(c: Call) returns (stray: bool)
      requires Inv(Value())
      modifies rows, flags, counts, live, `current
      ensures stray <==> !Enabled(old(Value()), c)
      ensures Value() == if stray then old(Value()) else Step(old(Value()), c)
    {
      stray := false;
      match c
      case OpenCall(err) =>
        var _, strayed := KernelOpen(err);
        stray := strayed;
      case DupCall(fd, from, cloexec) =>
        var _, strayed := DupFrom(fd, from, cloexec);
        stray := strayed;
      case Dup2Call(fd1, fd2) =>
        var _, strayed := KernelDup2(fd1, fd2);
        stray := strayed;
      case CloseCall(fd) => var _ := KernelClose(fd);
      case SetFdCall(fd, on) => var _ := FcntlSetFd(fd, on);
      case ExecCall => CloseOnExec();
      case ForkCall(child) => if child < live.Length && !live[child] { KernelFork(child); } else { stray := true; }
      case ExitCall(next) =>
        if next < live.Length && live[next] && next != current { KernelExit(next); } else { stray := true; }
      case SwitchTo(next) => if next < live.Length && live[next] { current := next; } else { stray := true; }
    }

    /** Any calls at all, up to the first that would leave the tables. */
    method Run(calls: seq<Call>) returns (done: nat)
      requires Inv(Value())
      modifies rows, flags, counts, live, `current
      ensures Inv(Value()) && done <= |calls|
      ensures AllEnabled(old(Value()), calls[..done]) && Value() == After(old(Value()), calls[..done])
      ensures done < |calls| ==> !Enabled(Value(), calls[done])
    {
      ghost var s := Value();
      hide Inv, Step, Enabled;
      done := 0;
      while done < |calls|
        invariant done <= |calls| && Inv(Value())
        invariant AllEnabled(s, calls[..done]) && Value() == After(s, calls[..done])
      {
        var stray := Perform(calls[done]);
        if stray {
          return;
        }
        OneMoreCall(s, calls[..done], calls[done]);
        assert calls[..done + 1] == calls[..done] + [calls[done]];
        done := done + 1;
      }
    }
  }
}
