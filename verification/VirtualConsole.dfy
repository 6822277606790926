/** The virtual console driver: writing to the screen buffer, and showing it
    (sys/drivers/virtual_console.c). */
module VirtualConsole {
  import opened Bytes
  import opened Memory
  import opened ScreenModel
  import opened EscapeCodes
  import opened Attributes
  import opened Terminal

  /** One call of the low-level driver: character c, or 0 for a blank, at column x of row y. */
  datatype Drawn = Drawn(x: nat, y: nat, c: Byte)

  /** What the low-level driver shows, and the calls it has seen. */
  class Display {
    const width: nat
    const height: nat
    const cells: array<Byte>
    ghost var calls: seq<Drawn>

    /** A blank display. */
    constructor (width: nat, height: nat)
      ensures this.width == width && this.height == height && calls == [] && fresh(cells)
      ensures cells.Length == Times(height, width) && BlankFrom(cells[..], 0)
    {
      this.width, this.height, calls := width, height, [];
      cells := new Byte[Times(height, width)](_ => 0);
    }

    /** vc_putc and vc_blank */
    method Draw(x: nat, y: nat, c: Byte)
      requires x < width && y < height && cells.Length == Times(height, width)
      modifies `calls, cells
      ensures calls == old(calls) + [Drawn(x, y, c)]
      ensures Times(y, width) + x < cells.Length
      ensures cells[..] == old(cells[..])[Times(y, width) + x := c]
    {
      TimesGrows(y, height, width);
      TimesIs(y, width);
      cells[y * width + x] := c;
      calls := calls + [Drawn(x, y, c)];
    }
  }

  /** struct virtual_console: the screen and its shadow, what is on display. */
  class Console {
    const width: nat
    const height: nat
    const scr: array<Byte>
    const cur: array<Byte>
    var cx: nat
    var cy: nat
    var savedCx: nat
    var savedCy: nat
    var top: nat
    var bottom: nat
    var lastPos: nat
    var newLastPos: nat

    ghost function Value(): Screen
      reads this, scr
    {
      Screen(width, height, scr[..], cx, cy, savedCx, savedCy, top, bottom)
    }

    ghost predicate Ok()
      reads this, scr
    {
      scr != cur && scr.Length == cur.Length && Valid(Value())
    }

    /** vc_init for one console. The shadow stays as it was allocated, so the console starts in
        step with a blank display exactly if that memory happened to be all zeros. */
    constructor (d: Display, shadow: seq<Byte>)
      requires 0 < d.width < WORD / 2 && 0 < d.height < WORD / 2 && d.cells.Length == Times(d.height, d.width) < 0x8000_0000
      requires BlankFrom(d.cells[..], 0) && |shadow| == d.cells.Length
      ensures Ok() && Attached(d) && cur[..] == shadow && lastPos == 0 && fresh(scr) && fresh(cur)
      ensures Synced(d) <==> BlankFrom(shadow, 0)
      ensures var n := Times(d.height, d.width);
        Value() == Screen(d.width, d.height, seq(n, _ => 0), 0, 0, 0, 0, 0, d.height - 1)
    {
      width, height := d.width, d.height;
      var n := d.cells.Length;
      scr := new Byte[n](_ => 0);
      cur := new Byte[n](i requires 0 <= i < n => shadow[i]);
      cx, cy, savedCx, savedCy, lastPos, newLastPos, top, bottom := 0, 0, 0, 0, 0, 0, 0, d.height - 1;
      new;
      assert scr[..] == seq(n, _ => 0);
      assert cur[..] == shadow;
      TimesGrows(0, height, width);
      assert BlankFrom(shadow, 0) ==> d.cells[..] == shadow;
      if d.cells[..] == shadow {
        assert BlankFrom(shadow, 0);
      }
    }

    // -------------------------------------------------------------------------------
    // Cursor
    // -------------------------------------------------------------------------------

    method CarriageReturn()
      modifies `cx
      ensures Value() == old(Value()).(cx := 0)
    {
      cx := 0;
    }

    method LineFeed()
      requires Ok()
      modifies `cy, scr
      ensures Value() == Terminal.LineFeed(old(Value()))
    {
      if cy + 1 < height {
        cy := cy + 1;
      } else {
        ScrollUp();
      }
    }

    method ReverseLineFeed()
      modifies `cy
      ensures Value() == old(Value()).(cy := Backward(old(cy), 1))
    {
      if cy != 0 {
        cy := cy - 1;
      }
    }

    method TabStop()
      modifies `cx
      ensures Value() == old(Value()).(cx := Terminal.TabStop(old(Value())))
    {
      cx := cx + (TAB_STOP - cx % TAB_STOP);
      if cx > width {
        cx := width;
      }
    }

    // -------------------------------------------------------------------------------
    // Scrolling
    // -------------------------------------------------------------------------------

    method ScrollUp()
      requires scr != cur && Shaped(Value()) && top <= bottom < height
      modifies scr
      ensures Value() == ScreenModel.ScrollUp(old(Value()))
    {
      ghost var s := Value();
      RegionInside(s);
      TimesIs(top, width);
      TimesIs(bottom, width);
      TimesIs(bottom - top, width);
      var dst := top * width;
      var src := dst + width;
      var count := (bottom - top) * width;
      Memmove(scr, dst, src, count);
      Memset(scr, bottom * width, 0, width);
      UpByOne(s.cells, dst, count, width);
    }

    method ScrollDown()
      requires scr != cur && Shaped(Value()) && top <= bottom < height
      modifies scr
      ensures Value() == ScreenModel.ScrollDown(old(Value()))
    {
      ghost var s := Value();
      RegionInside(s);
      TimesIs(top, width);
      TimesIs(bottom, width);
      TimesIs(bottom - top, width);
      var first := top * width;
      var last := bottom * width + width - 1;
      ShiftRegionDown(first, last, (bottom - top) * width);
    }

    /** The code of vc_scroll_down, once the addresses are known. */
    method ShiftRegionDown(first: nat, last: nat, count: nat)
      requires scr != cur && first + count + width == last + 1 <= scr.Length
      modifies scr
      ensures scr[..] == ShiftDown(old(scr[..]), first, last + 1, width)
    {
      DownByOne(scr[..], first, count, width);
      hide ShiftDown, Moved, Filled;
      CopyBackwards(last, count);
      Memset(scr, first, 0, width);
    }

    /** The copying loop of vc_scroll_down: from one row further up, last byte first. */
    method CopyBackwards(last: nat, n: nat)
      requires last < scr.Length && n + width <= last + 1
      modifies scr
      ensures scr[..] == Moved(old(scr[..]), last + 1 - n, last + 1 - n - width, n)
    {
      hide Moved;
      var dst: int, src: int, count := last, last - width, n;
      while count > 0
        invariant 0 <= count <= n && dst == last - (n - count) && src == dst - width
        invariant forall j {:trigger scr[j]} | 0 <= j < scr.Length :: scr[j] == if dst < j <= last then old(scr[j - width]) else old(scr[j])
      {
        count := count - 1;
        scr[dst] := scr[src];
        dst, src := dst - 1, src - 1;
      }
      IsMoved(old(scr[..]), last + 1 - n, last + 1 - n - width, n, scr[..]);
    }

    method InsertLines(count: nat)
      requires Ok()
      modifies `top, `bottom, scr
      ensures Value() == ScreenModel.InsertLines(old(Value()), count)
    {
      ghost var s := Value();
      var oldTop, oldBottom := top, bottom;
      top, bottom := cy, height - 1;
      InsertNone(s);
      hide ScreenModel.InsertLines;
      var i := 0;
      while i < count
        invariant i <= count && Value() == Inserted(s, i)
      {
        InsertOneMore(s, i);
        ScrollDown();
        i := i + 1;
      }
      top, bottom := oldTop, oldBottom;
    }

    method DeleteLines(count: nat)
      requires Ok()
      modifies `top, `bottom, scr
      ensures Value() == ScreenModel.DeleteLines(old(Value()), count)
    {
      ghost var s := Value();
      var oldTop, oldBottom := top, bottom;
      top, bottom := cy, height - 1;
      DeleteNone(s);
      hide ScreenModel.DeleteLines;
      var i := 0;
      while i < count
        invariant i <= count && Value() == Deleted(s, i)
      {
        DeleteOneMore(s, i);
        ScrollUp();
        i := i + 1;
      }
      top, bottom := oldTop, oldBottom;
    }

    // -------------------------------------------------------------------------------
    // Editing
    // -------------------------------------------------------------------------------

    /** SCR_POS */
    function ScrPos(): nat
      reads this
    {
      cy * width + cx
    }

    /** The macro computes the position. */
    lemma PosIs()
      requires Ok()
      ensures ScrPos() == Pos(Value()) && ScrPos() + (width - cx) <= scr.Length && cx <= ScrPos()
    {
      PosInside(Value());
      TimesIs(cy, width);
    }

    method InsertBlanks(count: nat)
      requires Ok() && cx + count < WORD
      modifies scr
      ensures ScrPos() + (width - cx) <= scr.Length
      ensures scr[..] == BlanksInserted(old(scr[..]), old(ScrPos()), width - cx, count)
    {
      PosIs();
      hide ScrPos, BlanksInserted, Valid;
      ShiftRight(ScrPos(), width - cx, count, (cx + count) % WORD >= width);
    }

    /** The two branches of vc_insert_blanks, for the `room` characters from p on. */
    method ShiftRight(p: nat, room: nat, count: nat, wide: bool)
      requires p + room <= scr.Length && (wide <==> count >= room)
      modifies scr
      ensures scr[..] == BlanksInserted(old(scr[..]), p, room, count)
    {
      BlanksInsertedIs(scr[..], p, room, count);
      hide BlanksInserted, Moved, Filled;
      if wide {
        Memset(scr, p, 0, room);
      } else {
        Memmove(scr, p + count, p, room - count);
        Memset(scr, p, 0, count);
      }
    }

    method ClearChars(n: nat)
      requires Ok()
      modifies scr
      ensures ScrPos() + (width - cx) <= scr.Length
      ensures scr[..] == Filled(old(scr[..]), old(ScrPos()), Least(n, width - cx), 0)
    {
      PosIs();
      hide ScrPos;
      var p := ScrPos();
      var count := n;
      if count > width - cx {
        count := width - cx;
      }
      Memset(scr, p, 0, count);
    }

    method DeleteChars(n: nat)
      requires Ok()
      modifies scr
      ensures ScrPos() + (width - cx) <= scr.Length
      ensures scr[..] == CharsDeleted(old(scr[..]), old(ScrPos()), width - cx, n)
    {
      PosIs();
      hide ScrPos, CharsDeleted, Valid;
      var count := n;
      if count > width - cx {
        count := width - cx;
      }
      ShiftLeft(ScrPos(), width - cx, count, n);
    }

    /** The moves of vc_delete_chars, for the `room` characters from p on. */
    method ShiftLeft(p: nat, room: nat, count: nat, ghost n: nat)
      requires p + room <= scr.Length && count == Least(n, room)
      modifies scr
      ensures scr[..] == CharsDeleted(old(scr[..]), p, room, n)
    {
      CharsDeletedIs(scr[..], p, room, n, count);
      var q, rest := p + count, room - count;
      assert q + rest == p + room;
      hide *;
      Memmove(scr, p, q, rest);
      Memset(scr, q, 0, rest);
    }

    method ClearScreen(par: nat)
      requires Ok()
      modifies scr
      ensures Value() == Terminal.ClearScreen(old(Value()), par)
    {
      PosIs();
      hide ScrPos;
      var pos := ScrPos();
      if par == 0 {
        Memset(scr, pos, 0, scr.Length - pos);
      } else if par == 1 {
        Memset(scr, 0, 0, pos);
      } else if par == 2 {
        Memset(scr, 0, 0, scr.Length);
      }
    }

    method ClearLine(par: nat)
      requires Ok()
      modifies scr
      ensures Value() == Terminal.ClearLine(old(Value()), par)
    {
      PosIs();
      hide ScrPos;
      var pos := ScrPos();
      if par == 0 {
        Memset(scr, pos, 0, width - cx);
      } else if par == 1 {
        Memset(scr, pos - cx, 0, cx);
      } else if par == 2 {
        Memset(scr, pos - cx, 0, width);
      }
    }

    /** A character that is no control. */
    method Put(b: Byte)
      requires Ok()
      modifies `cx, `cy, scr
      ensures Value() == Terminal.Put(old(Value()), b)
    {
      PosIs();
      hide ScrPos;
      var pos := ScrPos();
      scr[pos] := b;
      if cx == width - 1 && cy == height - 1 {
        ScrollUp();
        cx := 0;
      } else if cx == width - 1 {
        CarriageReturn();
        LineFeed();
      } else {
        cx := cx + 1;
      }
    }

    // -------------------------------------------------------------------------------
    // Escape sequences
    // -------------------------------------------------------------------------------

    /** vc_start_escape without the CSI branch. */
    method EscapeByte(b: Byte)
      requires Ok()
      modifies `cx, `cy, `savedCx, `savedCy, scr
      ensures Value() == ApplyEscape(old(Value()), b)
    {
      if b == 'D' as nat {
        LineFeed();
      } else if b == 'E' as nat {
        LineFeed();
        CarriageReturn();
      } else if b == 'H' as nat {
        TabStop();
      } else if b == 'M' as nat {
        ReverseLineFeed();
      } else if b == '7' as nat {
        savedCx, savedCy := cx, cy;
      } else if b == '8' as nat {
        cx, cy := savedCx, savedCy;
      }
    }

    /** The CSI sequences that move the cursor. */
    method Move(par: seq<nat>, final: Byte)
      requires Ok() && |par| == NPAR && IsMovement(final)
      modifies `cx, `cy
      ensures Value() == ApplyMovement(old(Value()), par, final)
    {
      var n := par[0];
      if final == 'A' as nat || final == 'F' as nat {
        cy := if cy >= n then cy - n else 0;
      } else if final == 'B' as nat || final == 'e' as nat || final == 'E' as nat {
        cy := if (cy + n) % WORD < height then (cy + n) % WORD else height - 1;
      } else if final == 'C' as nat || final == 'a' as nat {
        cx := if (cx + n) % WORD < width then (cx + n) % WORD else width - 1;
      } else if final == 'D' as nat {
        cx := if cx >= n then cx - n else 0;
      } else if final == 'G' as nat {
        if n < width {
          cx := n;
        }
      } else if final == 'd' as nat {
        if n < height {
          cy := n;
        }
      } else {
        if n >= 1 && n <= height {
          cy := n - 1;
        }
        if par[1] >= 1 && par[1] <= width {
          cx := par[1] - 1;
        }
      }
      if final == 'E' as nat || final == 'F' as nat {
        cx := 0;
      }
    }

    /** The other CSI sequences. */
    method Edit(par: seq<nat>, final: Byte)
      requires Ok() && |par| == NPAR && CountOk(Value(), par, final)
      modifies `top, `bottom, scr
      ensures Value() == ApplyEdit(old(Value()), par, final)
    {
      PosIs();
      hide ScrPos, ScreenModel.InsertLines, ScreenModel.DeleteLines, Terminal.ClearLine, Terminal.ClearScreen;
      if final == '@' as nat {
        InsertBlanks(par[0]);
      } else if final == 'J' as nat {
        ClearScreen(par[0]);
      } else if final == 'K' as nat {
        ClearLine(par[0]);
      } else if final == 'L' as nat {
        InsertLines(par[0]);
      } else if final == 'M' as nat {
        DeleteLines(par[0]);
      } else if final == 'P' as nat {
        DeleteChars(par[0]);
      } else if final == 'X' as nat {
        ClearChars(par[0]);
      } else if final == 'r' as nat {
        top, bottom := par[0], par[1];
      }
    }

    /** vc_csi_escape: reads the parameters, then acts on the byte that ends them. It is
        followed up to where the code leaves the stream or an array, takes a count to be
        negative, or never comes back. */
    method CsiEscape(buf: seq<Byte>, p0: nat) returns (p: nat, ending: Ending)
      requires Ok() && 2 <= p0 <= |buf| && IsCsi(buf, p0 - 2)
      modifies `cx, `cy, `top, `bottom, scr
      ensures ending == EndingAt(old(Value()), buf, p0 - 2)
      ensures !ending.Finished? ==> Value() == old(Value())
      ensures ending.Finished? ==> p == TokenEnd(buf, p0 - 2) && Value() == Apply(old(Value()), TokenAt(buf, p0 - 2))
    {
      var par, i, astray;
      par, i, p, astray := ReadParameters(buf, p0);
      if astray {
        return p, Astray;
      }
      var final := buf[p];
      if final == 'm' as nat {
        var end := SetAttr(par, i + 1);
        return p, if end.At? then Hung else if end.Outside? then Astray else Finished;
      }
      if (final == 'L' as nat || final == 'M' as nat) && par[0] >= WORD / 2 {
        return p, Astray;
      }
      if final == '@' as nat && cx + par[0] >= WORD {
        return p, Astray;
      }
      if IsMovement(final) {
        Move(par, final);
      } else {
        Edit(par, final);
      }
      ending := Finished;
    }

    // -------------------------------------------------------------------------------
    // Writing
    // -------------------------------------------------------------------------------

    /** One round of the loop of vc_write: the token at p; the result is its last byte. */
    method WriteToken(buf: seq<Byte>, p: nat) returns (last: nat, ending: Ending)
      requires Ok() && p < |buf|
      modifies `cx, `cy, `savedCx, `savedCy, `top, `bottom, scr
      ensures ending == EndingAt(old(Value()), buf, p)
      ensures !ending.Finished? ==> Value() == old(Value())
      ensures ending.Finished? ==> last == TokenEnd(buf, p) && Value() == Apply(old(Value()), TokenAt(buf, p))
    {
      last, ending := p, Finished;
      if buf[p] == CARRIAGE_RETURN {
        CarriageReturn();
      } else if buf[p] == LINE_FEED {
        LineFeed();
      } else if buf[p] == BACKSPACE {
        if cx != 0 {
          cx := cx - 1;
        }
      } else if buf[p] == ESC {
        last, ending := StartEscape(buf, p);
      } else {
        Put(buf[p]);
      }
    }

    /** vc_start_escape */
    method StartEscape(buf: seq<Byte>, p: nat) returns (last: nat, ending: Ending)
      requires Ok() && p < |buf| && buf[p] == ESC
      modifies `cx, `cy, `savedCx, `savedCy, `top, `bottom, scr
      ensures ending == EndingAt(old(Value()), buf, p)
      ensures !ending.Finished? ==> Value() == old(Value())
      ensures ending.Finished? ==> last == TokenEnd(buf, p) && Value() == Apply(old(Value()), TokenAt(buf, p))
    {
      last, ending := p + 1, Finished;
      if last == |buf| {
        return last, Astray;
      }
      if buf[last] == OPEN_BRACKET {
        last, ending := CsiEscape(buf, last + 1);
      } else {
        EscapeByte(buf[last]);
      }
    }

    /** Cursor, saved cursor and region are on the screen. */
    predicate OnScreen()
      reads this
    {
      cx < width && cy < height && savedCx < width && savedCy < height && top <= bottom < height
    }

    /** The loop of vc_write, for any stream; it is followed as long as it stays inside the
        stream and on the screen. */
    method WriteAll(buf: seq<Byte>) returns (p: nat, ending: Ending)
      requires Ok()
      modifies `cx, `cy, `savedCx, `savedCy, `top, `bottom, scr
      ensures Progress(Value(), p, ending) == Terminal.Written(old(Value()), buf, 0)
      ensures ending.Finished? ==> Ok()
    {
      ghost var result := Terminal.Written(Value(), buf, 0);
      var nr := |buf|;
      p := 0;
      while nr > 0
        invariant 0 <= nr == |buf| - p && Ok() && Terminal.Written(Value(), buf, p) == result
      {
        nr := nr - 1;
        ghost var before := Value();
        var last;
        last, ending := WriteToken(buf, p);
        if !ending.Finished? {
          return;
        }
        ApplyValid(before, TokenAt(buf, p));
        if !OnScreen() {
          return p, OffScreen;
        }
        nr := nr - (last - p);
        p := last + 1;
      }
      ending := Finished;
    }

    // -------------------------------------------------------------------------------
    // Showing
    // -------------------------------------------------------------------------------

    /** The display is this console's. */
    ghost predicate Attached(d: Display)
      reads this, cur, d
    {
      && d.width == width && d.height == height && d.cells != cur && d.cells != scr
      && d.cells.Length == cur.Length && lastPos < cur.Length
    }

    /** The shadow is what is on display, and blank behind the last position. */
    ghost predicate Synced(d: Display)
      reads this, cur, d, d.cells
    {
      Attached(d) && d.cells[..] == cur[..] && BlankFrom(cur[..], lastPos + 1)
    }

    method CalcLastPos()
      requires Ok()
      modifies `newLastPos
      ensures newLastPos == LastPos(scr[..], scr.Length)
    {
      newLastPos := 0;
      var p := 0;
      while p < scr.Length
        invariant p <= scr.Length && newLastPos == LastPos(scr[..], p)
      {
        if scr[p] != 0 {
          newLastPos := p;
        }
        p := p + 1;
      }
    }

    /** vc_flush: up to the last position, old or new, the cells that differ from the shadow are
        drawn, and the driver is called for them in order. If the shadow was in step, screen,
        shadow and display agree afterwards. */
    method Flush(d: Display)
      requires Ok() && Attached(d) && newLastPos == LastPos(scr[..], scr.Length)
      modifies `lastPos, cur, d`calls, d.cells
      ensures Attached(d) && lastPos == newLastPos
      ensures Flushed(d, old(d.cells[..]), old(d.calls), old(cur[..]), Most(old(lastPos), newLastPos))
      ensures old(Synced(d)) ==>
        && Synced(d) && d.cells[..] == cur[..] == scr[..]
        && d.calls == old(d.calls) + Differences(scr[..], old(cur[..]), width, scr.Length)
    {
      ghost var cells, was, calls := d.cells[..], cur[..], d.calls;
      assert lastPos < scr.Length && newLastPos < scr.Length && BlankFrom(scr[..], newLastPos + 1) by {
        LastPosIs(scr[..], scr.Length);
        PosInside(Value());
      }
      if newLastPos > lastPos {
        lastPos := newLastPos;
      }
      ghost var last := lastPos;
      hide Valid, LastPos, Differences, Shown;
      DrawUpTo(d, was, cells);
      if newLastPos < lastPos {
        lastPos := newLastPos;
      }
      if cells == was && BlankFrom(was, last + 1) {
        FlushedInStep(d, calls, was, last);
      }
    }

    lemma FlushedInStep(d: Display, calls: seq<Drawn>, was: seq<Byte>, last: nat)
      requires Flushed(d, was, calls, was, last) && BlankFrom(was, last + 1) && BlankFrom(scr[..], last + 1)
      ensures d.cells[..] == cur[..] == scr[..]
      ensures d.calls == calls + Differences(scr[..], was, width, scr.Length)
    {
      InStep(scr[..], was, width, last);
    }

    /** What a flush up to cell `last` has done. */
    ghost predicate Flushed(d: Display, cells: seq<Byte>, calls: seq<Drawn>, was: seq<Byte>, last: nat)
      reads this, scr, cur, d, d.cells
    {
      && last < |was| == |cells| == scr.Length && width > 0
      && d.cells[..] == Shown(cells, was, scr[..], last + 1)
      && cur[..] == Shown(was, was, scr[..], last + 1)
      && d.calls == calls + Differences(scr[..], was, width, last + 1)
    }

    /** The loop of vc_flush. */
    method DrawUpTo(d: Display, ghost was: seq<Byte>, ghost cells: seq<Byte>)
      requires Drawing(d, was, cells, 0) && lastPos < cur.Length
      modifies cur, d`calls, d.cells
      ensures Flushed(d, cells, old(d.calls), was, lastPos)
    {
      ghost var s := scr[..];
      var p := 0;
      while p <= lastPos
        invariant p <= lastPos + 1 && Drawing(d, was, cells, p) && scr[..] == s
        invariant d.calls == old(d.calls) + Differences(s, was, width, p)
      {
        DrawOne(d, p, was, cells);
        p := p + 1;
      }
    }

    /** The first p cells have been compared; the others are as they were. */
    ghost predicate Drawing(d: Display, was: seq<Byte>, cells: seq<Byte>, p: nat)
      reads this, scr, cur, d, d.cells
    {
      && d.width == width && d.height == height && d.cells != cur && d.cells != scr && scr != cur
      && Valid(Value()) && |was| == |cells| == cur.Length == scr.Length == d.cells.Length && p <= cur.Length
      && (forall i | 0 <= i < cur.Length :: cur[i] == if i < p then scr[i] else was[i])
      && (forall i | 0 <= i < cur.Length :: d.cells[i] == if i < p && scr[i] != was[i] then scr[i] else cells[i])
    }

    method DrawOne(d: Display, p: nat, ghost was: seq<Byte>, ghost cells: seq<Byte>)
      requires Drawing(d, was, cells, p) && p < cur.Length
      modifies cur, d`calls, d.cells
      ensures Drawing(d, was, cells, p + 1)
      ensures d.calls == old(d.calls) + Difference(scr[p], was[p], width, p)
    {
      if scr[p] != cur[p] {
        DivisionIs(p, width);
        CellInside(height, width, p);
        d.Draw(p % width, p / width, scr[p]);
        cur[p] := scr[p];
      }
    }

    /** vc_write. Exactly if the stream consists of whole tokens fit for the state they meet,
        it ends well: the screen is what interpreting the tokens gives, and it is on display
        if the shadow was in step. Otherwise p is the token at which it leaves the stream or
        the screen, or never comes back. */
    method Write(d: Display, buf: seq<Byte>) returns (ret: nat, p: nat, ending: Ending)
      requires Ok() && Attached(d)
      modifies `cx, `cy, `savedCx, `savedCy, `top, `bottom, scr, `lastPos, `newLastPos, cur, d`calls, d.cells
      ensures Progress(Value(), p, ending) == Terminal.Written(old(Value()), buf, 0)
      ensures ending.Finished? <==> Complete(buf, 0) && Fit(old(Value()), buf, 0)
      ensures ending.Finished? ==>
        && Ok() && Attached(d) && ret == |buf|
        && Value() == Interpret(old(Value()), buf, 0) && lastPos == LastPos(scr[..], scr.Length)
        && Flushed(d, old(d.cells[..]), old(d.calls), old(cur[..]), Most(old(lastPos), lastPos))
      ensures ending.Finished? && old(Synced(d)) ==>
        && Synced(d) && d.cells[..] == cur[..] == scr[..]
        && d.calls == old(d.calls) + Differences(scr[..], old(cur[..]), width, scr.Length)
      ensures !ending.Finished? ==> d.cells[..] == old(d.cells[..]) && d.calls == old(d.calls)
    {
      WrittenIsInterpreted(Value(), buf, 0);
      ret := |buf|;
      p, ending := WriteAll(buf);
      if !ending.Finished? {
        return;
      }
      CalcLastPos();
      Flush(d);
    }
  }

  lemma UpByOne(c: seq<Byte>, start: nat, n: nat, w: nat)
    requires start + n + w <= |c|
    ensures Filled(Moved(c, start, start + w, n), start + n, w, 0) == ShiftUp(c, start, start + n + w, w)
  {
  }

  lemma BlanksInsertedIs(c: seq<Byte>, pos: nat, room: nat, n: nat)
    requires pos + room <= |c|
    ensures BlanksInserted(c, pos, room, n) ==
      if n >= room then Filled(c, pos, room, 0) else Filled(Moved(c, pos + n, pos, room - n), pos, n, 0)
  {
  }

  lemma CharsDeletedIs(c: seq<Byte>, pos: nat, room: nat, n: nat, k: nat)
    requires pos + room <= |c| && k == Least(n, room)
    ensures CharsDeleted(c, pos, room, n) == Filled(Moved(c, pos, pos + k, room - k), pos + k, room - k, 0)
  {
  }

  lemma DownByOne(c: seq<Byte>, start: nat, n: nat, w: nat)
    requires start + n + w <= |c|
    ensures Filled(Moved(c, start + w, start, n), start, w, 0) == ShiftDown(c, start, start + n + w, w)
  {
  }

  /** i lines done, while the region is set from the cursor's row to the last row. */
  function Inserted(s: Screen, i: nat): (t: Screen)
    requires Valid(s)
    ensures Valid(t)
  {
    ScreenModel.InsertLines(s, i).(top := s.cy, bottom := s.height - 1)
  }

  lemma InsertNone(s: Screen)
    requires Valid(s)
    ensures ScreenModel.InsertLines(s, 0) == s
  {
    RowInside(s, s.cy);
    assert ShiftDown(s.cells, RowStart(s, s.cy), |s.cells|, 0) == s.cells;
  }

  lemma InsertOneMore(s: Screen, i: nat)
    requires Valid(s)
    ensures ScreenModel.ScrollDown(Inserted(s, i)) == Inserted(s, i + 1)
  {
    RowInside(s, s.cy);
    ShiftDownTwice(s.cells, RowStart(s, s.cy), |s.cells|, Times(i, s.width), s.width);
    assert RowStart(s, s.height - 1) + s.width == |s.cells|;
    hide ShiftDown;
  }

  /** i lines done, while the region is set from the cursor's row to the last row. */
  function Deleted(s: Screen, i: nat): (t: Screen)
    requires Valid(s)
    ensures Valid(t)
  {
    ScreenModel.DeleteLines(s, i).(top := s.cy, bottom := s.height - 1)
  }

  lemma DeleteNone(s: Screen)
    requires Valid(s)
    ensures ScreenModel.DeleteLines(s, 0) == s
  {
    RowInside(s, s.cy);
    assert ShiftUp(s.cells, RowStart(s, s.cy), |s.cells|, 0) == s.cells;
  }

  lemma DeleteOneMore(s: Screen, i: nat)
    requires Valid(s)
    ensures ScreenModel.ScrollUp(Deleted(s, i)) == Deleted(s, i + 1)
  {
    RowInside(s, s.cy);
    ShiftUpTwice(s.cells, RowStart(s, s.cy), |s.cells|, Times(i, s.width), s.width);
    assert RowStart(s, s.height - 1) + s.width == |s.cells|;
    hide ShiftUp;
  }

  /** The loop of vc_csi_escape: a digit goes to the current parameter, a semicolon moves on. */
  method ReadParameters(buf: seq<Byte>, p0: nat) returns (r: seq<nat>, i: nat, p: nat, astray: bool)
    requires p0 <= |buf|
    ensures |r| == NPAR
    ensures astray <==> CsiEnd(buf, p0) == |buf| || !Roomy(buf[p0..CsiEnd(buf, p0)], 0)
    ensures !astray ==>
      && p == CsiEnd(buf, p0) && i == Semicolons(buf[p0..p])
      && r == Scan(buf[p0..p], NoParameters(), 0)
  {
    var par := new nat[NPAR](_ => 0);
    i := 0;
    ghost var e := CsiEnd(buf, p0);
    assert par[..] == NoParameters();
    ghost var text := buf[p0..e];
    p := p0;
    while p < |buf| && IsParameter(buf[p])
      invariant p0 <= p <= e && par.Length == NPAR
      invariant i + Semicolons(buf[p..e]) == Semicolons(text) && Roomy(buf[p..e], i) == Roomy(text, 0)
      invariant Roomy(text, 0) ==> Scan(buf[p..e], par[..], i) == Scan(text, NoParameters(), 0)
      decreases e - p
    {
      assert buf[p..e][1..] == buf[p + 1..e] && buf[p..e][0] == buf[p];
      if IsDigit(buf[p]) {
        if i >= NPAR {
          return par[..], i, p, true;
        }
        par[i] := Appended(par[i], buf[p]);
      } else {
        i := i + 1;
      }
      p := p + 1;
    }
    assert buf[e..e] == [];
    r, astray := par[..], p == |buf|;
  }

  // ---------------------------------------------------------------------------------
  // Redrawing what differs
  // ---------------------------------------------------------------------------------

  /** The call for cell p, if there is one. */
  function Difference(now: Byte, was: Byte, width: nat, p: nat): seq<Drawn>
    requires width > 0
  {
    if now == was then [] else [Drawn(Remainder(p, width), Quotient(p, width), now)]
  }

  /** The calls for the first n cells. */
  function Differences(s: seq<Byte>, was: seq<Byte>, width: nat, n: nat): seq<Drawn>
    requires width > 0 && n <= |s| == |was|
  {
    if n == 0 then [] else Differences(s, was, width, n - 1) + Difference(s[n - 1], was[n - 1], width, n - 1)
  }

  /** They are the cells that differ, in the order of the buffer, each at its column and row
      and with its new character. */
  lemma DrawsDifferences(s: seq<Byte>, was: seq<Byte>, width: nat, n: nat)
    requires width > 0 && n <= |s| == |was|
    ensures var ds := Differences(s, was, width, n);
      && (forall i | 0 <= i < n && s[i] != was[i] :: CallFor(s, width, i) in ds)
      && (forall d | d in ds :: IsDifference(s, was, width, n, d))
      && Ascending(width, ds)
  {
    DrawsAll(s, was, width, n);
    DrawsInOrder(s, was, width, n);
  }

  /** The call for cell i. */
  function CallFor(s: seq<Byte>, width: nat, i: nat): Drawn
    requires width > 0 && i < |s|
  {
    Drawn(i % width, i / width, s[i])
  }

  lemma CallIs(s: seq<Byte>, was: seq<Byte>, width: nat, i: nat)
    requires width > 0 && i < |s| == |was|
    ensures Difference(s[i], was[i], width, i) == if s[i] == was[i] then [] else [CallFor(s, width, i)]
    ensures Index(width, CallFor(s, width, i)) == i
    ensures s[i] != was[i] ==> IsDifference(s, was, width, i + 1, CallFor(s, width, i))
  {
    DivisionIs(i, width);
    Division(i, width);
  }

  lemma {:induction false} DrawsAll(s: seq<Byte>, was: seq<Byte>, width: nat, n: nat)
    requires width > 0 && n <= |s| == |was|
    ensures forall i | 0 <= i < n && s[i] != was[i] :: CallFor(s, width, i) in Differences(s, was, width, n)
  {
    if n > 0 {
      DrawsAll(s, was, width, n - 1);
      CallIs(s, was, width, n - 1);
      hide CallFor, Difference;
    }
  }

  lemma {:induction false} DrawsInOrder(s: seq<Byte>, was: seq<Byte>, width: nat, n: nat)
    requires width > 0 && n <= |s| == |was|
    ensures forall d | d in Differences(s, was, width, n) :: IsDifference(s, was, width, n, d)
    ensures Ascending(width, Differences(s, was, width, n))
  {
    if n > 0 {
      DrawsInOrder(s, was, width, n - 1);
      CallIs(s, was, width, n - 1);
      forall d | d in Differences(s, was, width, n - 1)
        ensures IsDifference(s, was, width, n, d) && Index(width, d) < n - 1
      {
        StillDiffers(s, was, width, n - 1, d);
      }
      hide CallFor, Difference, Index, IsDifference;
      LastDrawn(width, Differences(s, was, width, n - 1), n - 1, CallFor(s, width, n - 1));
    }
  }

  lemma StillDiffers(s: seq<Byte>, was: seq<Byte>, width: nat, n: nat, d: Drawn)
    requires n < |s| == |was| && IsDifference(s, was, width, n, d)
    ensures IsDifference(s, was, width, n + 1, d) && Index(width, d) < n
  {
  }

  lemma LastDrawn(width: nat, ds: seq<Drawn>, n: nat, d: Drawn)
    requires Ascending(width, ds) && (forall e | e in ds :: Index(width, e) < n) && Index(width, d) == n
    ensures Ascending(width, ds + [d])
  {
    forall k | 0 <= k < |ds| ensures Index(width, ds[k]) < n {
      assert ds[k] in ds;
    }
  }

  predicate Ascending(width: nat, ds: seq<Drawn>) {
    forall j, k | 0 <= j < k < |ds| :: Index(width, ds[j]) < Index(width, ds[k])
  }

  /** Where a call draws, in the flat buffer. */
  function Index(width: nat, d: Drawn): nat {
    Times(d.y, width) + d.x
  }

  predicate IsDifference(s: seq<Byte>, was: seq<Byte>, width: nat, n: nat, d: Drawn)
    requires n <= |s| == |was|
  {
    var i := Index(width, d);
    d.x < width && 0 <= i < n && s[i] != was[i] && d.c == s[i]
  }

  lemma {:induction false} SameAfter(s: seq<Byte>, was: seq<Byte>, width: nat, p: nat, n: nat)
    requires width > 0 && p <= n <= |s| == |was| && forall i | p <= i < n :: s[i] == was[i]
    ensures Differences(s, was, width, n) == Differences(s, was, width, p)
    decreases n
  {
    if p < n {
      SameAfter(s, was, width, p, n - 1);
    }
  }

  function Most(a: nat, b: nat): nat {
    if b > a then b else a
  }

  /** The cells once those of the first n that differ from the shadow have been drawn. */
  function Shown(cells: seq<Byte>, was: seq<Byte>, now: seq<Byte>, n: nat): (r: seq<Byte>)
    requires |cells| == |was| == |now|
    ensures |r| == |cells|
  {
    seq(|cells|, i requires 0 <= i < |cells| => if i < n && now[i] != was[i] then now[i] else cells[i])
  }

  /** Drawing what differs from the shadow shows the screen exactly if the display was right
      wherever the shadow hid the cell. */
  lemma ShowsExactly(cells: seq<Byte>, was: seq<Byte>, now: seq<Byte>, n: nat)
    requires |cells| == |was| == |now| && forall i | n <= i < |now| :: cells[i] == now[i]
    ensures Shown(cells, was, now, n) == now <==>
              forall i | 0 <= i < |now| && i < n && was[i] == now[i] :: cells[i] == now[i]
  {
    var r := Shown(cells, was, now, n);
    if r == now {
      forall i | 0 <= i < |now| && i < n && was[i] == now[i] ensures cells[i] == now[i] {
        assert r[i] == now[i];
      }
    }
  }

  /** The first flush of a new console, whose shadow holds what was in its memory and whose
      display is blank, shows the screen exactly if no character up to the last one stood in
      that memory already. */
  lemma FirstFlushShows(shadow: seq<Byte>, now: seq<Byte>)
    requires |shadow| == |now| > 0
    ensures var n := LastPos(now, |now|) + 1;
      Shown(seq(|now|, _ => 0), shadow, now, n) == now <==>
        forall i | 0 <= i < |now| && i < n && shadow[i] == now[i] :: now[i] == 0
  {
    LastPosIs(now, |now|);
    ShowsExactly(seq(|now|, _ => 0), shadow, now, LastPos(now, |now|) + 1);
  }

  /** A letter A that the memory of the shadow happened to hold is never drawn. */
  lemma StaleShadowHides()
    ensures LastPos([65], 1) == 0 && Shown([0], [65], [65], 1) == [0] != [65]
  {
    FirstFlushShows([65], [65]);
    assert seq(1, _ => 0) == [0];
    assert Shown([0], [65], [65], 1)[0] == 0;
  }

  /** With the shadow in step, nothing differs behind the last position. */
  lemma InStep(now: seq<Byte>, was: seq<Byte>, width: nat, last: nat)
    requires width > 0 && last < |now| == |was| && BlankFrom(was, last + 1) && BlankFrom(now, last + 1)
    ensures Shown(was, was, now, last + 1) == now
    ensures Differences(now, was, width, |now|) == Differences(now, was, width, last + 1)
  {
    SameAfter(now, was, width, last + 1, |now|);
  }

  predicate BlankFrom(s: seq<Byte>, p: nat) {
    forall i | p <= i < |s| :: s[i] == 0
  }

  /** The last of the first n cells that is not blank, or 0. */
  function LastPos(s: seq<Byte>, n: nat): nat
    requires n <= |s|
  {
    if n == 0 then 0 else if s[n - 1] != 0 then n - 1 else LastPos(s, n - 1)
  }

  lemma {:induction false} LastPosIs(s: seq<Byte>, n: nat)
    requires n <= |s|
    ensures n > 0 ==> LastPos(s, n) < n
    ensures forall i | LastPos(s, n) < i < n :: s[i] == 0
    ensures LastPos(s, n) != 0 ==> s[LastPos(s, n)] != 0
  {
    if n > 0 {
      LastPosIs(s, n - 1);
    }
  }

  lemma CellInside(height: nat, width: nat, p: nat)
    requires width > 0 && p < Times(height, width)
    ensures Quotient(p, width) < height && Times(Quotient(p, width), width) + Remainder(p, width) == p
  {
    Division(p, width);
    QuotientBelow(p, width, height);
  }
}
