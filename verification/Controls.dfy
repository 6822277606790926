/** What each control means in rows and columns, cell by cell (sys/drivers/virtual_console.c). */
module Controls {
  import opened Bytes
  import opened Memory
  import opened ScreenModel
  import opened EscapeCodes
  import opened Attributes
  import opened Terminal

  // ---------------------------------------------------------------------------------
  // Cells
  // ---------------------------------------------------------------------------------

  predicate OnScreen(s: Screen, x: nat, y: nat) {
    Shaped(s) && x < s.width && y < s.height
  }

  /** The character in column x of row y. */
  function Cell(s: Screen, x: nat, y: nat): Byte
    requires OnScreen(s, x, y)
  {
    CellInside(s, x, y);
    s.cells[y * s.width + x]
  }

  lemma CellInside(s: Screen, x: nat, y: nat)
    requires OnScreen(s, x, y)
    ensures 0 <= y * s.width + x < |s.cells| && y * s.width + x == RowStart(s, y) + x
  {
    TimesIs(y, s.width);
    RowInside(s, y);
  }

  /** The cell comes before the cursor's, in the order in which text is written. */
  predicate Before(s: Screen, x: nat, y: nat) {
    y < s.cy || (y == s.cy && x < s.cx)
  }

  /** Where a cell lies in the flat buffer, relative to the start of row r. */
  lemma RowOrder(s: Screen, x: nat, y: nat, r: nat)
    requires OnScreen(s, x, y) && r < s.height
    ensures RowStart(s, y) + x < RowStart(s, r) <==> y < r
    ensures RowStart(s, r) + s.width <= RowStart(s, y) + x <==> r < y
    ensures RowStart(s, r) + s.width <= |s.cells|
  {
    RowInside(s, r);
    if y < r {
      RowsApart(s, y, r - y);
    } else if r < y {
      RowsApart(s, r, y - r);
    }
  }

  /** Only cells have changed. */
  predicate CellsOnly(s: Screen, r: Screen) {
    Valid(r) && r == s.(cells := r.cells)
  }

  // ---------------------------------------------------------------------------------
  // Erasing
  // ---------------------------------------------------------------------------------

  /** CSI J blanks from the cursor to the end, up to the cursor, or everything. */
  lemma ScreenErased(s: Screen, par: seq<nat>, given: nat, x: nat, y: nat)
    requires Valid(s) && |par| == NPAR && OnScreen(s, x, y)
    ensures var r := Apply(s, Csi(par, given, 'J' as nat));
      && CellsOnly(s, r)
      && Cell(r, x, y) ==
           if (par[0] == 0 && !Before(s, x, y)) || (par[0] == 1 && Before(s, x, y)) || par[0] == 2 then 0
           else Cell(s, x, y)
  {
    CellInside(s, x, y);
    RowOrder(s, x, y, s.cy);
    PosInside(s);
  }

  /** CSI K does the same within the cursor's row. */
  lemma LineErased(s: Screen, par: seq<nat>, given: nat, x: nat, y: nat)
    requires Valid(s) && |par| == NPAR && OnScreen(s, x, y)
    ensures var r := Apply(s, Csi(par, given, 'K' as nat));
      && CellsOnly(s, r)
      && Cell(r, x, y) ==
           if y == s.cy && ((par[0] == 0 && s.cx <= x) || (par[0] == 1 && x < s.cx) || par[0] == 2) then 0
           else Cell(s, x, y)
  {
    CellInside(s, x, y);
    RowOrder(s, x, y, s.cy);
    PosInside(s);
  }

  /** CSI X blanks n characters from the cursor on, as far as the row goes. */
  lemma CharsErased(s: Screen, par: seq<nat>, given: nat, x: nat, y: nat)
    requires Valid(s) && |par| == NPAR && OnScreen(s, x, y)
    ensures var r := Apply(s, Csi(par, given, 'X' as nat));
      && CellsOnly(s, r)
      && Cell(r, x, y) == if y == s.cy && s.cx <= x < s.cx + par[0] then 0 else Cell(s, x, y)
  {
    CellInside(s, x, y);
    RowOrder(s, x, y, s.cy);
    PosInside(s);
  }

  // ---------------------------------------------------------------------------------
  // Shifting within the row
  // ---------------------------------------------------------------------------------

  /** CSI @ pushes the rest of the row n columns to the right and leaves blanks. */
  lemma BlanksPushed(s: Screen, par: seq<nat>, given: nat, x: nat, y: nat)
    requires Valid(s) && |par| == NPAR && OnScreen(s, x, y) && s.cx + par[0] < WORD
    ensures var r := Apply(s, Csi(par, given, '@' as nat));
      && CellsOnly(s, r)
      && Cell(r, x, y) ==
           if y != s.cy || x < s.cx then Cell(s, x, y)
           else if x < s.cx + par[0] then 0
           else Cell(s, x - par[0], y)
  {
    CellInside(s, x, y);
    RowOrder(s, x, y, s.cy);
    PosInside(s);
    if s.cx + par[0] <= x {
      CellInside(s, x - par[0], y);
    }
  }

  /** CSI P pulls the rest of the row n columns to the left; it blanks what lies n columns or
      more behind the cursor, be it the gap or not. */
  lemma CharsPulled(s: Screen, par: seq<nat>, given: nat, x: nat, y: nat)
    requires Valid(s) && |par| == NPAR && OnScreen(s, x, y)
    ensures var r := Apply(s, Csi(par, given, 'P' as nat));
      && CellsOnly(s, r)
      && Cell(r, x, y) ==
           if y != s.cy || x < s.cx then Cell(s, x, y)
           else if s.cx + par[0] <= x then 0
           else if x + par[0] < s.width then Cell(s, x + par[0], y)
           else Cell(s, x, y)
  {
    CellInside(s, x, y);
    RowOrder(s, x, y, s.cy);
    PosInside(s);
    if x + par[0] < s.width {
      CellInside(s, x + par[0], y);
    }
    DeletedAt(s.cells, Pos(s), s.width - s.cx, par[0], RowStart(s, y) + x);
  }

  // ---------------------------------------------------------------------------------
  // Shifting rows
  // ---------------------------------------------------------------------------------

  lemma CellInRow(s: Screen, x: nat, y: nat)
    requires OnScreen(s, x, y)
    ensures |Row(s, y)| == s.width && Row(s, y)[x] == Cell(s, x, y)
  {
    RowInside(s, y);
    CellInside(s, x, y);
  }

  /** CSI L inserts n blank rows at the cursor's row... */
  lemma RowsPushed(s: Screen, par: seq<nat>, given: nat, x: nat, y: nat)
    requires Valid(s) && |par| == NPAR && OnScreen(s, x, y) && par[0] < WORD / 2
    ensures var r := Apply(s, Csi(par, given, 'L' as nat));
      && CellsOnly(s, r)
      && Cell(r, x, y) ==
           if y < s.cy then Cell(s, x, y) else if y < s.cy + par[0] then 0 else Cell(s, x, y - par[0])
  {
    var r := InsertLines(s, par[0]);
    InsertedRows(s, par[0], y);
    CellInRow(r, x, y);
    CellInRow(s, x, y);
    if s.cy + par[0] <= y {
      CellInRow(s, x, y - par[0]);
    }
  }

  /** ...and CSI M deletes n rows there, whatever the scrolling region is. */
  lemma RowsPulled(s: Screen, par: seq<nat>, given: nat, x: nat, y: nat)
    requires Valid(s) && |par| == NPAR && OnScreen(s, x, y) && par[0] < WORD / 2
    ensures var r := Apply(s, Csi(par, given, 'M' as nat));
      && CellsOnly(s, r)
      && Cell(r, x, y) ==
           if y < s.cy then Cell(s, x, y) else if y + par[0] < s.height then Cell(s, x, y + par[0]) else 0
  {
    var r := DeleteLines(s, par[0]);
    DeletedRows(s, par[0], y);
    CellInRow(r, x, y);
    CellInRow(s, x, y);
    if y + par[0] < s.height {
      CellInRow(s, x, y + par[0]);
    }
  }

  /** Scrolling moves the rows of the region up by one, blanks its last, and leaves the others. */
  lemma RegionScrolled(s: Screen, x: nat, y: nat)
    requires Valid(s) && OnScreen(s, x, y)
    ensures var r := ScrollUp(s);
      && CellsOnly(s, r)
      && Cell(r, x, y) ==
           if y < s.top || s.bottom < y then Cell(s, x, y) else if y < s.bottom then Cell(s, x, y + 1) else 0
  {
    CellInside(s, x, y);
    RegionInside(s);
    RowOrder(s, x, y, s.top);
    RowOrder(s, x, y, s.bottom);
    RowsApart(s, y, 1);
    if s.top <= y < s.bottom {
      CellInside(s, x, y + 1);
      RowOrder(s, x, y + 1, s.bottom);
    } else if y == s.bottom {
      RowsApart(s, y, 1);
    }
  }

  // ---------------------------------------------------------------------------------
  // Moving the cursor
  // ---------------------------------------------------------------------------------

  /** SCR_POS is the place of the cursor's cell in rows of `width`. */
  lemma PosIs(s: Screen)
    requires Valid(s)
    ensures Pos(s) == s.cy * s.width + s.cx < |s.cells|
  {
    CellInside(s, s.cx, s.cy);
  }

  /** Carriage return, backspace and line feed; ESC D, E and M. Only line feeds scroll: ESC M
      stops at the first row. */
  lemma LineControls(s: Screen)
    requires Valid(s)
    ensures Apply(s, Plain(13)) == s.(cx := 0)
    ensures Apply(s, Plain(8)) == if s.cx > 0 then s.(cx := s.cx - 1) else s
    ensures var down := if s.cy == s.height - 1 then ScrollUp(s) else s.(cy := s.cy + 1);
      && Apply(s, Plain(10)) == down && Apply(s, Escape('D' as nat)) == down
      && Apply(s, Escape('E' as nat)) == down.(cx := 0)
    ensures Apply(s, Escape('M' as nat)) == if s.cy > 0 then s.(cy := s.cy - 1) else s
  {
  }

  /** ESC H goes to the next multiple of 8, or to the margin if that is nearer. */
  lemma TabStops(s: Screen)
    requires Valid(s)
    ensures var r := Apply(s, Escape('H' as nat));
      && r == s.(cx := r.cx) && s.cx < r.cx <= s.width && (r.cx % 8 == 0 || r.cx == s.width)
      && forall k | s.cx < k < r.cx :: k % 8 != 0
  {
  }

  /** ESC 7 saves the cursor and ESC 8 restores it; other bytes after ESC do nothing. */
  lemma SavesAndRestores(s: Screen, b: Byte)
    requires Valid(s)
    ensures Apply(s, Escape('7' as nat)) == s.(savedCx := s.cx, savedCy := s.cy)
    ensures Apply(s, Escape('8' as nat)) == s.(cx := s.savedCx, cy := s.savedCy)
    ensures b as char !in "DEHM78" ==> Apply(s, Escape(b)) == s
  {
  }

  /** CSI A and F move up, D to the left, at most to the edge; G and d go to a column or row,
      counted from 0, if it is there. */
  lemma MovesBack(s: Screen, par: seq<nat>, given: nat)
    requires Valid(s) && |par| == NPAR
    ensures var n := par[0]; var up, left := if n < s.cy then s.cy - n else 0, if n < s.cx then s.cx - n else 0;
      && Apply(s, Csi(par, given, 'A' as nat)) == s.(cy := up)
      && Apply(s, Csi(par, given, 'F' as nat)) == s.(cy := up, cx := 0)
      && Apply(s, Csi(par, given, 'D' as nat)) == s.(cx := left)
      && Apply(s, Csi(par, given, 'G' as nat)) == (if n < s.width then s.(cx := n) else s)
      && Apply(s, Csi(par, given, 'd' as nat)) == (if n < s.height then s.(cy := n) else s)
  {
  }

  /** CSI B, e and E move down, C and a to the right... */
  lemma MovesOn(s: Screen, par: seq<nat>, given: nat, final: char)
    requires Valid(s) && |par| == NPAR && par[0] < WORD && final in ['B', 'e', 'E', 'C', 'a']
    ensures final as nat < 256
    ensures var r := Apply(s, Csi(par, given, final as nat));
      r == if final == 'C' || final == 'a' then s.(cx := Ahead(s.cx, par[0], s.width))
           else s.(cy := Ahead(s.cy, par[0], s.height), cx := if final == 'E' then 0 else s.cx)
  {
  }

  /** ...by n, in 32-bit arithmetic, but not past the last of m. */
  function Ahead(at: nat, n: nat, m: nat): nat
    requires m > 0
  {
    var to := if at + n < WORD then at + n else at + n - WORD;
    if to < m then to else m - 1
  }

  /** That is n on, or the last, whichever comes first, exactly if the sum does not wrap to one
      before the last. */
  lemma AheadIsMeant(at: nat, n: nat, m: nat)
    requires at < m < WORD && n < WORD
    ensures Ahead(at, n, m) == (if at + n < m then at + n else m - 1) <==> at + n < WORD || at + n >= WORD + m - 1
    ensures Ahead(at, n, m) < at <==> at + n >= WORD
  {
  }

  /** CSI r sets the region and CSI m no cell; other final bytes do nothing. */
  lemma Unmoving(s: Screen, par: seq<nat>, given: nat, final: Byte)
    requires Valid(s) && |par| == NPAR && Defined(s, Csi(par, given, final))
    ensures final == 'r' as nat ==> Apply(s, Csi(par, given, final)) == s.(top := par[0], bottom := par[1])
    ensures final as char !in "@ABCDEFGHJKLMPXadefr" ==> Apply(s, Csi(par, given, final)) == s
  {
  }

  // ---------------------------------------------------------------------------------
  // By stream
  // ---------------------------------------------------------------------------------

  /** A CSI sequence as it is printed. */
  function CsiText(ns: seq<nat>, final: Byte): seq<Byte>
    requires ns != []
  {
    [ESC, OPEN_BRACKET] + Printed(ns) + [final]
  }

  /** Writing it, with up to 16 numbers, applies its token. */
  lemma CsiByStream(s: Screen, ns: seq<nat>, final: Byte)
    requires Valid(s) && 0 < |ns| <= NPAR && (forall n | n in ns :: n < WORD) && !IsParameter(final)
    requires var t := Csi(Padded(NoParameters(), 0, ns), |ns|, final); Defined(s, t) && Harmless(s, t)
    ensures var buf := CsiText(ns, final);
      && Complete(buf, 0) && Fit(s, buf, 0)
      && Interpret(s, buf, 0) == Apply(s, Csi(Padded(NoParameters(), 0, ns), |ns|, final))
  {
    CsiReadsBack(ns, final, []);
    assert [ESC, OPEN_BRACKET] + Printed(ns) + [final] + [] == CsiText(ns, final);
    OneToken(s, CsiText(ns, final), Csi(Padded(NoParameters(), 0, ns), |ns|, final));
  }

  /** Writing ESC [ J, without a number, blanks the screen from the cursor on. */
  lemma ErasedByStream(s: Screen, x: nat, y: nat)
    requires Valid(s) && OnScreen(s, x, y)
    ensures var buf := [27, 91, 'J' as nat];
      && Complete(buf, 0) && Fit(s, buf, 0)
      && CellsOnly(s, Interpret(s, buf, 0))
      && Cell(Interpret(s, buf, 0), x, y) == if Before(s, x, y) then Cell(s, x, y) else 0
  {
    var buf := [27, 91, 'J' as nat];
    assert buf[2..2] == [];
    assert TokenAt(buf, 0) == Csi(NoParameters(), 1, 'J' as nat);
    OneToken(s, buf, Csi(NoParameters(), 1, 'J' as nat));
    ScreenErased(s, NoParameters(), 1, x, y);
  }

  /** Writing ESC [ 4294967295 B moves the cursor one row up. */
  lemma DownGoesUp(s: Screen)
    requires Valid(s) && s.cy > 0
    ensures var buf := CsiText([4294967295], 'B' as nat);
      Complete(buf, 0) && Fit(s, buf, 0) && Interpret(s, buf, 0) == s.(cy := s.cy - 1)
  {
    var par := Padded(NoParameters(), 0, [4294967295]);
    CsiByStream(s, [4294967295], 'B' as nat);
    MovesOn(s, par, 1, 'B');
  }
}
